/**
 The BER primitives of the SNMP simulator: definite lengths (section 8.1.3 of X.690), two's-complement
 INTEGERs (section 8.3) and OBJECT IDENTIFIERs (section 8.19). Each Rust loop is a method proved equal to a
 specification function; the lemmas at the end of each part say what those functions mean.
 */
module Ber {
  import opened Wrappers
  import opened Bytes
  import opened Sequences

  datatype Tlv = Tlv(tag: Byte, value: seq<Byte>)

  type Oid = seq<U32>

  // ---------------------------------------------------------------------------
  // Definite lengths
  // ---------------------------------------------------------------------------

  /** The length field that starts at `cursor`: one octet below 128, or up to four counted octets. */
  function LengthAt(input: seq<Byte>, cursor: nat): (r: Read<nat>)
    ensures r.Done? ==> cursor < r.next <= |input|
  {
    if cursor >= |input| then Fail
    else if input[cursor] < 0x80 then Done(input[cursor], cursor + 1)
    else
      var count := input[cursor] % 0x80;
      if count == 0 || count > 4 || cursor + 1 + count > |input| then Fail
      else Done(BigEndian(input[cursor + 1..cursor + 1 + count]), cursor + 1 + count)
  }

  method ReadLength(input: seq<Byte>, cursor: nat) returns (r: Read<nat>)
    ensures r == LengthAt(input, cursor)
    ensures r.Done? ==> r.value < TWO_32
  {
    if cursor >= |input| {
      return Fail;
    }
    var first := input[cursor];
    if first < 0x80 {
      return Done(first, cursor + 1);
    }
    var start := cursor + 1;
    var count := first % 0x80;
    if count == 0 || count > 4 || start + count > |input| {
      return Fail;
    }
    var length: nat := 0;
    var octets := input[start..start + count];
    for i := 0 to count
      invariant length == BigEndian(octets[..i])
    {
      assert octets[..i + 1][..i] == octets[..i];
      length := length * 256 + octets[i];
    }
    assert octets[..count] == octets;
    BigEndianBound(octets);
    Pow256Monotone(count, 4);
    Pow256Values();
    return Done(length, start + count);
  }

  /** The shortest big-endian octets of `n`; zero takes one octet. */
  function Significant(n: nat): (bs: seq<Byte>)
    ensures |bs| >= 1
  {
    if n < 256 then [n] else Significant(n / 256) + [n % 256]
  }

  function LengthBytes(n: nat): (bs: seq<Byte>)
    ensures |bs| >= 1
  {
    if n < 0x80 then [n] else [(0x80 + |Significant(n)|) % 0x100] + Significant(n)
  }

  lemma {:induction false} SignificantValue(n: nat)
    ensures BigEndian(Significant(n)) == n
    ensures |Significant(n)| > 1 ==> Pow256(|Significant(n)| - 1) <= n
  {
    var s := Significant(n);
    if n >= 256 {
      SignificantValue(n / 256);
      assert s[..|s| - 1] == Significant(n / 256);
    } else {
      assert s[..0] == [];
    }
  }

  lemma SignificantLength(n: nat, width: nat)
    requires width >= 1
    ensures |Significant(n)| <= width <==> n < Pow256(width)
  {
    var s := Significant(n);
    SignificantValue(n);
    BigEndianBound(s);
    if |s| <= width {
      Pow256Monotone(|s|, width);
    } else {
      Pow256Monotone(width, |s| - 1);
    }
  }

  /** An octet string without a leading zero is the significant octets of its own value. */
  lemma {:induction false} SignificantUnique(bs: seq<Byte>)
    requires |bs| >= 1 && (|bs| == 1 || bs[0] != 0)
    ensures bs == Significant(BigEndian(bs))
  {
    if |bs| == 1 {
      assert bs[..0] == [];
    } else {
      var init := bs[..|bs| - 1];
      SignificantUnique(init);
      LeadingOctet(init);
      assert BigEndian(bs) / 256 == BigEndian(init);
      assert bs == init + [bs[|bs| - 1]];
    }
  }

  lemma {:induction false} LeadingOctet(bs: seq<Byte>)
    requires |bs| >= 1 && bs[0] != 0
    ensures BigEndian(bs) >= 1
  {
    if |bs| > 1 {
      LeadingOctet(bs[..|bs| - 1]);
    }
  }

  /** Finds the first nonzero octet of a fixed-width number, or its last octet. */
  method SignificantFrom(bytes: seq<Byte>) returns (first: nat)
    requires |bytes| >= 1
    ensures first < |bytes|
    ensures bytes[first..] == Significant(BigEndian(bytes))
  {
    first := 0;
    while first < |bytes| - 1 && bytes[first] == 0
      invariant first < |bytes|
      invariant BigEndian(bytes[first..]) == BigEndian(bytes)
    {
      BigEndianConcat([bytes[first]], bytes[first + 1..]);
      assert [bytes[first]] + bytes[first + 1..] == bytes[first..];
      assert BigEndian([bytes[first]]) == 0 by { assert [bytes[first]][..0] == []; }
      first := first + 1;
    }
    SignificantUnique(bytes[first..]);
  }

  /** A length as `usize`. No vector is long enough for the reduction to matter. */
  function Usize(length: nat): (n: nat)
    ensures n < TWO_64
  {
    length % TWO_64
  }

  method EncodeLength(length: nat, output: seq<Byte>) returns (extended: seq<Byte>)
    requires length < TWO_64
    ensures extended == output + LengthBytes(length)
  {
    if length < 128 {
      return output + [length];
    }
    var bytes := ToBigEndian(length, 8);
    var first := SignificantFrom(bytes);
    Pow256Values();
    BigEndianRoundTrip(length, 8);
    var significant := bytes[first..];
    extended := output + [0x80 + |significant|] + significant;
  }

  /** A printed length is read back, wherever it stands, exactly when it is below 2^32. */
  lemma LengthRoundTrip(input: seq<Byte>, cursor: nat, n: nat)
    requires n < TWO_64
    requires cursor + |LengthBytes(n)| <= |input| && input[cursor..cursor + |LengthBytes(n)|] == LengthBytes(n)
    ensures LengthAt(input, cursor) == if n < TWO_32 then Done(n, cursor + |LengthBytes(n)|) else Fail
  {
    hide Significant, Pow256, BigEndian;
    var s, length := Significant(n), LengthBytes(n);
    SubSlice(input, cursor, length, 0, |length|);
    if n >= 0x80 {
      Pow256Values();
      SignificantLength(n, 8);
      SignificantLength(n, 4);
      SignificantValue(n);
      SubSlice(input, cursor, length, 1, |length|);
      assert length[1..|length|] == s;
    }
  }

  /**
   The forms of section 8.1.3 of X.690 that are read: the short one, and the long one with one to four octets, padded
   or not, if they are all there. The indefinite form and longer ones are refused.
   */
  lemma LengthFormsRead(before: seq<Byte>, first: Byte, rest: seq<Byte>)
    ensures var read := LengthAt(before + ([first] + rest), |before|);
            if first < 128 then read == Done(first, |before| + 1)
            else if first == 128 || first > 132 then read == Fail
            else if |rest| < first - 128 then read == Fail
            else read == Done(BigEndian(rest[..first - 128]), |before| + 1 + (first - 128))
  {
    hide BigEndian;
    var input := before + ([first] + rest);
    assert input[|before|] == first;
    if 128 < first <= 132 && |rest| >= first - 128 {
      assert input[|before| + 1..|before| + 1 + (first - 128)] == rest[..first - 128];
    }
  }

  // ---------------------------------------------------------------------------
  // Tag, length, value
  // ---------------------------------------------------------------------------

  function TlvAt(input: seq<Byte>, cursor: nat): (r: Read<Tlv>)
    ensures r.Done? ==> cursor + 2 <= r.next <= |input|
  {
    if cursor >= |input| then Fail
    else match LengthAt(input, cursor + 1)
      case Fail => Fail
      case Done(length, start) =>
        if start + length > |input| then Fail
        else Done(Tlv(input[cursor], input[start..start + length]), start + length)
  }

  method ReadTlv(input: seq<Byte>, cursor: nat) returns (r: Read<Tlv>)
    ensures r == TlvAt(input, cursor)
  {
    if cursor >= |input| {
      return Fail;
    }
    var length := ReadLength(input, cursor + 1);
    if length.Fail? || length.next + length.value > |input| {
      return Fail;
    }
    r := Done(Tlv(input[cursor], input[length.next..length.next + length.value]), length.next + length.value);
  }

  function Wrapped(tag: Byte, content: seq<Byte>): (bs: seq<Byte>)
    ensures |bs| >= 2 + |content|
  {
    [tag] + LengthBytes(Usize(|content|)) + content
  }

  method Wrap(tag: Byte, content: seq<Byte>) returns (output: seq<Byte>)
    ensures output == Wrapped(tag, content)
  {
    output := EncodeLength(Usize(|content|), [tag]);
    output := output + content;
  }

  /** A wrapped element is read back, wherever it stands, exactly when its content is below 2^32 octets. */
  lemma TlvRoundTrip(input: seq<Byte>, cursor: nat, tag: Byte, content: seq<Byte>)
    requires |content| < TWO_64
    requires cursor + |Wrapped(tag, content)| <= |input|
    requires input[cursor..cursor + |Wrapped(tag, content)|] == Wrapped(tag, content)
    ensures TlvAt(input, cursor)
         == if |content| < TWO_32 then Done(Tlv(tag, content), cursor + |Wrapped(tag, content)|) else Fail
  {
    hide LengthAt, LengthBytes;
    var w, length := Wrapped(tag, content), LengthBytes(|content|);
    SubSlice(input, cursor, w, 0, 1);
    SubSlice(input, cursor, w, 1, 1 + |length|);
    assert w[1..1 + |length|] == length;
    LengthRoundTrip(input, cursor + 1, |content|);
    SubSlice(input, cursor, w, 1 + |length|, |w|);
    assert w[1 + |length|..|w|] == content;
  }

  /** The same with an explicit prefix and suffix. */
  lemma TlvBetween(prefix: seq<Byte>, tag: Byte, content: seq<Byte>, suffix: seq<Byte>)
    requires |content| < TWO_64
    ensures TlvAt(prefix + Wrapped(tag, content) + suffix, |prefix|)
         == if |content| < TWO_32 then Done(Tlv(tag, content), |prefix| + |Wrapped(tag, content)|) else Fail
  {
    hide TlvAt, Wrapped;
    Middle(prefix, Wrapped(tag, content), suffix);
    TlvRoundTrip(prefix + Wrapped(tag, content) + suffix, |prefix|, tag, content);
  }

  /** Elements written one after another, as the contents of a constructed element are. */
  function Encoded(elements: seq<Tlv>): seq<Byte> {
    if elements == [] then []
    else Encoded(elements[..|elements| - 1]) + Wrapped(elements[|elements| - 1].tag, elements[|elements| - 1].value)
  }

  /** Every value is short enough for `read_length`. */
  predicate Readable(elements: seq<Tlv>) {
    forall e :: e in elements ==> |e.value| < TWO_32
  }

  lemma {:induction false} EncodedConcat(a: seq<Tlv>, b: seq<Tlv>)
    ensures Encoded(a + b) == Encoded(a) + Encoded(b)
  {
    if b == [] {
      assert a + b == a;
    } else {
      var init, last := b[..|b| - 1], b[|b| - 1];
      assert (a + b)[..|a + b| - 1] == a + init;
      EncodedConcat(a, init);
      assert Encoded(a) + (Encoded(init) + Wrapped(last.tag, last.value)) == Encoded(a + b);
    }
  }

  lemma EncodedSnoc(elements: seq<Tlv>, e: Tlv)
    ensures Encoded(elements + [e]) == Encoded(elements) + Wrapped(e.tag, e.value)
  {
    hide Wrapped;
    assert (elements + [e])[..|elements|] == elements;
  }

  lemma EncodedSingle(e: Tlv)
    ensures Encoded([e]) == Wrapped(e.tag, e.value)
  {
    assert [e][..0] == [];
  }

  /** The element at position `k` is read at the offset where its predecessors end. */
  lemma ElementRead(elements: seq<Tlv>, k: nat)
    requires k < |elements| && Readable(elements)
    ensures TlvAt(Encoded(elements), |Encoded(elements[..k])|) == Done(elements[k], |Encoded(elements[..k + 1])|)
    ensures |Encoded(elements[..k])| < |Encoded(elements[..k + 1])| <= |Encoded(elements)|
  {
    hide TlvAt, Wrapped, Encoded;
    var e, after := elements[k], elements[k + 1..];
    SplitAt(elements, k + 1);
    EncodedConcat(elements[..k + 1], after);
    InitAndLast(elements, k);
    EncodedSnoc(elements[..k], e);
    TlvBetween(Encoded(elements[..k]), e.tag, e.value, Encoded(after));
  }

  /** All the elements up to the end of the input. */
  function Decoded(input: seq<Byte>, cursor: nat): Option<seq<Tlv>>
    decreases |input| - cursor
  {
    if cursor >= |input| then Some([])
    else match TlvAt(input, cursor)
      case Fail => None
      case Done(e, next) => match Decoded(input, next)
        case None => None
        case Some(rest) => Some([e] + rest)
  }

  lemma DecodedStep(input: seq<Byte>, cursor: nat, e: Tlv, next: nat, rest: seq<Tlv>)
    requires cursor < |input| && TlvAt(input, cursor) == Done(e, next) && Decoded(input, next) == Some(rest)
    ensures Decoded(input, cursor) == Some([e] + rest)
  {
  }

  lemma {:induction false} DecodedSuffix(elements: seq<Tlv>, k: nat)
    requires k <= |elements| && Readable(elements)
    ensures Decoded(Encoded(elements), |Encoded(elements[..k])|) == Some(elements[k..])
    decreases |elements| - k
  {
    hide TlvAt, Encoded, Wrapped;
    if k == |elements| {
      WholeSlice(elements);
    } else {
      ElementRead(elements, k);
      DecodedSuffix(elements, k + 1);
      DecodedStep(Encoded(elements), |Encoded(elements[..k])|, elements[k], |Encoded(elements[..k + 1])|, elements[k + 1..]);
      HeadAndTail(elements, k);
    }
  }

  /** A sequence of elements decodes to exactly those elements. */
  lemma ElementsRoundTrip(elements: seq<Tlv>)
    requires Readable(elements)
    ensures Decoded(Encoded(elements), 0) == Some(elements)
  {
    DecodedSuffix(elements, 0);
    WholeSlice(elements);
  }

  // ---------------------------------------------------------------------------
  // INTEGER
  // ---------------------------------------------------------------------------

  /** The two's-complement value of a non-empty octet string. */
  function SignedValue(bs: seq<Byte>): int
    requires bs != []
  {
    if bs[0] >= 0x80 then BigEndian(bs) - Pow256(|bs|) else BigEndian(bs)
  }

  /** Rust's `i64` arithmetic keeps the low 64 bits. */
  function ToI64(x: int): I64 {
    (x + TWO_63) % TWO_64 - TWO_63
  }

  function DecodedInteger(bytes: seq<Byte>): Option<int> {
    if |bytes| == 0 || |bytes| > 8 then None else Some(SignedValue(bytes))
  }

  method DecodeInteger(bytes: seq<Byte>) returns (r: Option<int>)
    ensures r == DecodedInteger(bytes)
    ensures r.Some? ==> -TWO_63 <= r.value < TWO_63
  {
    if |bytes| == 0 || |bytes| > 8 {
      return None;
    }
    var sign := if bytes[0] >= 0x80 then -1 else 0;
    var value := sign;
    for i := 0 to |bytes|
      invariant value == sign * Pow256(i) + BigEndian(bytes[..i])
      invariant i > 0 ==> InRange(value, i)
    {
      assert bytes[..i + 1][..i] == bytes[..i];
      RangeStep(value, i, bytes[i], bytes[0]);
      value := ToI64(value * 256) + bytes[i];
    }
    assert bytes[..|bytes|] == bytes;
    Pow256Values();
    Pow256Monotone(|bytes| - 1, 7);
    return Some(value);
  }

  /** `value` fits in `octets` octets of two's complement. */
  predicate InRange(value: int, octets: nat)
    requires octets > 0
  {
    -128 * Pow256(octets - 1) <= value < 128 * Pow256(octets - 1)
  }

  lemma RangeStep(value: int, octets: nat, next: Byte, first: Byte)
    requires octets < 8
    requires if octets == 0 then value == (if first >= 0x80 then -1 else 0) && next == first else InRange(value, octets)
    ensures ToI64(value * 256) == value * 256
    ensures InRange(value * 256 + next, octets + 1)
  {
    Pow256Values();
    Pow256Monotone(octets, 7);
    if octets > 0 {
      assert Pow256(octets) == 256 * Pow256(octets - 1);
      Pow256Monotone(octets - 1, 6);
    }
  }

  /** The first octet repeats the sign of the second (section 8.3.2 of X.690). */
  predicate Redundant(bs: seq<Byte>) {
    |bs| > 1 && ((bs[0] == 0 && bs[1] < 0x80) || (bs[0] == 0xff && bs[1] >= 0x80))
  }

  function Stripped(bs: seq<Byte>): (r: seq<Byte>)
    requires bs != []
    ensures r != [] && |r| <= |bs| && !Redundant(r)
  {
    if Redundant(bs) then Stripped(bs[1..]) else bs
  }

  /** The content octets `encode_integer` writes. */
  function IntegerContent(value: I64): (c: seq<Byte>)
    ensures 1 <= |c| <= 8 && !Redundant(c)
  {
    Stripped(ToBigEndian(value % TWO_64, 8))
  }

  function EncodedInteger(value: I64): seq<Byte> {
    Wrapped(0x02, IntegerContent(value))
  }

  method EncodeInteger(value: I64) returns (output: seq<Byte>)
    ensures output == EncodedInteger(value)
  {
    var bytes := ToBigEndian(value % TWO_64, 8);
    var first := 0;
    while first < |bytes| - 1
          && ((bytes[first] == 0 && bytes[first + 1] < 0x80) || (bytes[first] == 0xff && bytes[first + 1] >= 0x80))
      invariant first < |bytes|
      invariant Stripped(bytes[first..]) == Stripped(bytes)
    {
      assert bytes[first..][1..] == bytes[first + 1..];
      first := first + 1;
    }
    output := Wrap(0x02, bytes[first..]);
  }

  lemma {:induction false} StrippedValue(bs: seq<Byte>)
    requires bs != []
    ensures SignedValue(Stripped(bs)) == SignedValue(bs)
  {
    if Redundant(bs) {
      StrippedValue(bs[1..]);
      assert bs == [bs[0]] + bs[1..];
      BigEndianConcat([bs[0]], bs[1..]);
      assert BigEndian([bs[0]]) == bs[0] by { assert [bs[0]][..0] == []; }
      assert Pow256(|bs|) == 256 * Pow256(|bs| - 1);
    }
  }

  lemma MulMonotone(a: int, b: int, p: nat)
    requires a <= b
    ensures a * p <= b * p
  {
  }

  lemma LeadingByte(bs: seq<Byte>)
    requires bs != []
    ensures BigEndian(bs) == bs[0] * Pow256(|bs| - 1) + BigEndian(bs[1..])
    ensures BigEndian(bs[1..]) < Pow256(|bs| - 1)
    ensures Pow256(|bs|) == 256 * Pow256(|bs| - 1)
  {
    assert bs == [bs[0]] + bs[1..];
    BigEndianConcat([bs[0]], bs[1..]);
    BigEndianBound(bs[1..]);
    assert BigEndian([bs[0]]) == bs[0] by { assert [bs[0]][..0] == []; }
  }

  lemma TopBit(bs: seq<Byte>)
    requires bs != []
    ensures bs[0] >= 0x80 <==> BigEndian(bs) >= 0x80 * Pow256(|bs| - 1)
    ensures InRange(SignedValue(bs), |bs|)
  {
    LeadingByte(bs);
    var p := Pow256(|bs| - 1);
    MulMonotone(bs[0], 0xff, p);
    if bs[0] >= 0x80 {
      MulMonotone(0x80, bs[0], p);
    } else {
      MulMonotone(bs[0], 0x7f, p);
    }
  }

  /** Every `i64` survives encoding and decoding. */
  lemma IntegerRoundTrip(value: I64)
    ensures DecodedInteger(IntegerContent(value)) == Some(value)
  {
    var bytes := ToBigEndian(value % TWO_64, 8);
    Pow256Values();
    BigEndianRoundTrip(value % TWO_64, 8);
    TopBit(bytes);
    StrippedValue(bytes);
  }

  /** An octet string that is not redundant needs all its octets: no shorter string has its value. */
  lemma NotRedundantNeedsLength(bs: seq<Byte>)
    requires |bs| > 1 && !Redundant(bs)
    ensures !InRange(SignedValue(bs), |bs| - 1)
  {
    var tail := bs[1..];
    LeadingByte(bs);
    TopBit(tail);
    var p := Pow256(|bs| - 2);
    assert Pow256(|bs| - 1) == 256 * p;
    if bs[0] >= 0x80 {
      if bs[0] != 0xff {
        MulMonotone(bs[0], 0xfe, 256 * p);
      }
    } else if bs[0] != 0 {
      MulMonotone(1, bs[0], 256 * p);
    }
  }

  /** Two octet strings of one length with one signed value are the same. */
  lemma SignedInjective(a: seq<Byte>, b: seq<Byte>)
    requires |a| == |b| > 0 && SignedValue(a) == SignedValue(b)
    ensures a == b
  {
    TopBit(a);
    TopBit(b);
    BigEndianBound(a);
    BigEndianBound(b);
    assert BigEndian(a) == BigEndian(b);
    BigEndianInjective(a, b);
  }

  /** The encoding is the shortest one, and the only one of its length. */
  lemma IntegerMinimal(value: I64, other: seq<Byte>)
    requires other != [] && SignedValue(other) == value
    ensures |IntegerContent(value)| <= |other|
    ensures |IntegerContent(value)| == |other| ==> IntegerContent(value) == other
  {
    hide BigEndian, SignedValue, IntegerContent;
    var c := IntegerContent(value);
    IntegerRoundTrip(value);
    if |other| < |c| {
      NotRedundantNeedsLength(c);
      TopBit(other);
      Pow256Monotone(|other| - 1, |c| - 2);
    } else if |other| == |c| {
      SignedInjective(c, other);
    }
  }

  lemma {:induction false} BigEndianInjective(a: seq<Byte>, b: seq<Byte>)
    requires |a| == |b| && BigEndian(a) == BigEndian(b)
    ensures a == b
  {
    if a != [] {
      BigEndianInjective(a[..|a| - 1], b[..|b| - 1]);
      assert a == a[..|a| - 1] + [a[|a| - 1]] && b == b[..|b| - 1] + [b[|b| - 1]];
    }
  }

  // ---------------------------------------------------------------------------
  // Unsigned application types (TimeTicks)
  // ---------------------------------------------------------------------------

  function UnsignedContent(value: nat): seq<Byte> {
    var s := Significant(value);
    if s[0] >= 0x80 then [0] + s else s
  }

  method EncodeUnsigned(tag: Byte, value: nat) returns (output: seq<Byte>)
    requires value < TWO_64
    ensures output == Wrapped(tag, UnsignedContent(value))
  {
    var bytes := ToBigEndian(value, 8);
    var first := SignificantFrom(bytes);
    Pow256Values();
    BigEndianRoundTrip(value, 8);
    var content := bytes[first..];
    if content[0] >= 0x80 {
      content := [0] + content;
    }
    output := Wrap(tag, content);
  }

  /** The content denotes the same number read as two's complement; `decode_integer` accepts it exactly below 2^63. */
  lemma UnsignedRoundTrip(value: nat)
    requires value < TWO_64
    ensures SignedValue(UnsignedContent(value)) == value
    ensures DecodedInteger(UnsignedContent(value)) == if value < TWO_63 then Some(value) else None
  {
    var s := Significant(value);
    SignificantValue(value);
    TopBit(s);
    BigEndianConcat([0], s);
    assert BigEndian([0]) == 0 by { assert [0][..0] == []; }
    Pow256Values();
    SignificantLength(value, 8);
    SignificantLength(value, 7);
  }

  // ---------------------------------------------------------------------------
  // OBJECT IDENTIFIER
  // ---------------------------------------------------------------------------

  /** Base-128 groups with the continuation bit set on each. */
  function Continued(component: nat): (bs: seq<Byte>)
    ensures |bs| >= 1
  {
    if component < 128 then [0x80 + component] else Continued(component / 128) + [0x80 + component % 128]
  }

  /** Base-128 groups, most significant first, the continuation bit clear on the last one only. */
  function Base128(component: nat): (bs: seq<Byte>)
    ensures |bs| >= 1
  {
    if component < 128 then [component] else Continued(component / 128) + [component % 128]
  }

  function EncodedComponents(components: Oid): seq<Byte> {
    if components == [] then []
    else EncodedComponents(components[..|components| - 1]) + Base128(components[|components| - 1])
  }

  /** The guards of `encode_oid`, with `u32` wrap-around in the sum of the first octet. */
  predicate Accepted(oid: Oid) {
    |oid| >= 2 && oid[0] <= 2 && (oid[0] < 2 ==> oid[1] < 40) && (oid[0] * 40 + oid[1]) % TWO_32 <= 0xff
  }

  /** Root 2 leaves room for second arcs up to 175 in a single first octet. */
  predicate Representable(oid: Oid) {
    Accepted(oid) && (oid[0] == 2 ==> oid[1] <= 175)
  }

  function OidContent(oid: Oid): seq<Byte>
    requires Accepted(oid)
  {
    [(oid[0] * 40 + oid[1]) % TWO_32] + EncodedComponents(oid[2..])
  }

  function EncodedOid(oid: Oid): Option<seq<Byte>> {
    if Accepted(oid) then Some(Wrapped(0x06, OidContent(oid))) else None
  }

  /** The groups still to be written before the octets already in the buffer. */
  function Groups(remaining: nat): seq<Byte> {
    if remaining == 0 then [] else Continued(remaining)
  }

  lemma GroupsStep(remaining: nat, written: seq<Byte>)
    requires remaining > 0
    ensures Groups(remaining) + written == Groups(remaining / 128) + ([0x80 + remaining % 128] + written)
  {
  }

  lemma GroupsStart(component: U32)
    ensures Base128(component) == Groups(component / 128) + [component % 128]
    ensures component / 128 < RoomBelow(4)
    ensures forall written: seq<Byte> :: Groups(0) + written == written
  {
    assert forall written: seq<Byte> :: [] + written == written;
  }

  /** What can still be left when the buffer is filled down to `index`. */
  function RoomBelow(index: nat): nat {
    if index == 0 then 1 else if index == 1 then 16 else if index == 2 then 0x800 else if index == 3 then 0x4_0000 else 0x200_0000
  }

  lemma RoomStep(remaining: nat, index: nat)
    requires index <= 4 && 0 < remaining < RoomBelow(index)
    ensures index > 0 && remaining / 128 < RoomBelow(index - 1)
  {
  }

  /** Fills a five-octet buffer from the right; the index never underflows because a component is below 2^32. */
  method EncodeComponent(component: U32) returns (bs: seq<Byte>)
    ensures bs == Base128(component)
  {
    hide Base128, Continued, Groups, RoomBelow;
    GroupsStart(component);
    var encoded := new Byte[5];
    var index := 4;
    encoded[4] := component % 128;
    var remaining: nat := component / 128;
    ghost var written: seq<Byte> := [component % 128];
    while remaining > 0
      invariant 0 <= index <= 4
      invariant encoded[index..] == written
      invariant remaining < RoomBelow(index)
      invariant Base128(component) == Groups(remaining) + written
      decreases remaining
    {
      GroupsStep(remaining, written);
      RoomStep(remaining, index);
      index := index - 1;
      encoded[index] := 0x80 + remaining % 128;
      written := [0x80 + remaining % 128] + written;
      remaining := remaining / 128;
    }
    bs := encoded[index..];
  }

  method EncodeOid(oid: Oid) returns (r: Option<seq<Byte>>)
    ensures r == EncodedOid(oid)
  {
    hide Base128, Wrapped;
    if |oid| < 2 || oid[0] > 2 || (oid[0] < 2 && oid[1] >= 40) {
      return None;
    }
    var first := (oid[0] * 40 + oid[1]) % TWO_32;
    if first > 0xff {
      return None;
    }
    var content := [first];
    var components := oid[2..];
    for i := 0 to |components|
      invariant content == [first] + EncodedComponents(components[..i])
    {
      var encoded := EncodeComponent(components[i]);
      assert components[..i + 1][..i] == components[..i];
      content := content + encoded;
    }
    assert components[..|components|] == components;
    var output := Wrap(0x06, content);
    return Some(output);
  }

  /** The component loop of `decode_oid`: `value` is the partial component, `pending` says whether one is open. */
  function Components(bytes: seq<Byte>, value: U32, pending: bool): Option<Oid> {
    if bytes == [] then (if pending then None else Some([]))
    else
      var v := value * 128 + bytes[0] % 128;
      if v >= TWO_32 then None
      else if bytes[0] >= 0x80 then Components(bytes[1..], v, true)
      else match Components(bytes[1..], 0, false)
        case None => None
        case Some(rest) => Some([v] + rest)
  }

  function FirstArc(first: Byte): nat {
    if first / 40 < 2 then first / 40 else 2
  }

  function DecodedOid(bytes: seq<Byte>): Option<Oid> {
    if bytes == [] then None
    else match Components(bytes[1..], 0, false)
      case None => None
      case Some(rest) => Some([FirstArc(bytes[0]), bytes[0] - FirstArc(bytes[0]) * 40] + rest)
  }

  method DecodeOid(bytes: seq<Byte>) returns (r: Option<Oid>)
    ensures r == DecodedOid(bytes)
  {
    if bytes == [] {
      return None;
    }
    var first := bytes[0];
    var firstComponent := if first / 40 < 2 then first / 40 else 2;
    var oid: Oid := [firstComponent, first - firstComponent * 40];
    ghost var head := oid;
    ghost var tail: Oid := [];
    var value: U32 := 0;
    var pending := false;
    var rest := bytes[1..];
    assert rest[0..] == rest;
    assert forall more: Oid :: tail + more == more;
    for i := 0 to |rest|
      invariant oid == head + tail
      invariant Components(rest, 0, false)
             == match Components(rest[i..], value, pending) case None => None case Some(more) => Some(tail + more)
    {
      assert rest[i..][1..] == rest[i + 1..];
      var next := value * 128 + rest[i] % 128;
      if next >= TWO_32 {
        return None;
      }
      value := next;
      pending := rest[i] >= 0x80;
      if !pending {
        assert forall more: Oid :: tail + ([value] + more) == (tail + [value]) + more;
        oid, tail := oid + [value], tail + [value];
        assert oid == head + tail;
        value := 0;
      }
    }
    if pending {
      return None;
    }
    assert head + (tail + []) == oid;
    return Some(oid);
  }

  lemma {:induction false} ContinuedRead(component: nat, rest: seq<Byte>, pending: bool)
    requires component < TWO_32
    ensures Components(Continued(component) + rest, 0, pending) == Components(rest, component, true)
  {
    if component < 128 {
      assert (Continued(component) + rest)[1..] == rest;
    } else {
      var last := [0x80 + component % 128];
      assert Continued(component) + rest == Continued(component / 128) + (last + rest);
      ContinuedRead(component / 128, last + rest, pending);
      assert (last + rest)[1..] == rest;
    }
  }

  lemma Base128Read(component: U32, rest: seq<Byte>)
    ensures Components(Base128(component) + rest, 0, false)
         == match Components(rest, 0, false) case None => None case Some(more) => Some([component] + more)
  {
    if component < 128 {
      assert (Base128(component) + rest)[1..] == rest;
    } else {
      var last := [component % 128];
      assert Base128(component) + rest == Continued(component / 128) + (last + rest);
      ContinuedRead(component / 128, last + rest, false);
      assert (last + rest)[1..] == rest;
    }
  }

  lemma {:induction false} ComponentsRoundTrip(components: Oid, rest: seq<Byte>)
    ensures Components(EncodedComponents(components) + rest, 0, false)
         == match Components(rest, 0, false) case None => None case Some(more) => Some(components + more)
  {
    if components == [] {
      assert EncodedComponents(components) + rest == rest;
      assert forall more: Oid :: components + more == more;
    } else {
      var init, last := components[..|components| - 1], components[|components| - 1];
      assert EncodedComponents(components) + rest == EncodedComponents(init) + (Base128(last) + rest);
      ComponentsRoundTrip(init, Base128(last) + rest);
      Base128Read(last, rest);
      assert components == init + [last];
      assert forall more: Oid :: init + ([last] + more) == components + more;
    }
  }

  /** An accepted identifier is decoded back to itself exactly when its second arc fits beside its root. */
  lemma OidRoundTrip(oid: Oid)
    requires Accepted(oid)
    ensures DecodedOid(OidContent(oid)) == Some(oid) <==> Representable(oid)
  {
    hide Components, EncodedComponents;
    var bytes := OidContent(oid);
    var rest := EncodedComponents(oid[2..]);
    ComponentsRoundTrip(oid[2..], []);
    NoComponents();
    assert rest + [] == rest && oid[2..] + [] == oid[2..];
    DecodedFrom(bytes[0], rest, oid[2..]);
    assert bytes == [bytes[0]] + rest;
    var decoded := DecodedOid(bytes).value;
    if Representable(oid) {
      assert oid == [oid[0], oid[1]] + oid[2..];
    } else {
      assert decoded[0] == FirstArc(bytes[0]) && decoded[1] == bytes[0] - FirstArc(bytes[0]) * 40;
    }
  }

  lemma NoComponents()
    ensures Components([], 0, false) == Some([])
  {
  }

  lemma DecodedFrom(first: Byte, rest: seq<Byte>, components: Oid)
    requires Components(rest, 0, false) == Some(components)
    ensures DecodedOid([first] + rest) == Some([FirstArc(first), first - FirstArc(first) * 40] + components)
  {
    assert ([first] + rest)[1..] == rest;
  }

  /** What the encoder takes: the second arc fits beside its root, or makes the 32-bit sum wrap. */
  lemma AcceptedExactly(oid: Oid)
    ensures EncodedOid(oid).Some? <==>
            |oid| >= 2 && (if oid[0] == 2 then oid[1] <= 175 || oid[1] >= 4_294_967_216 else oid[0] <= 1 && oid[1] <= 39)
    ensures Representable(oid) <==> |oid| >= 2 && (if oid[0] == 2 then oid[1] <= 175 else oid[0] <= 1 && oid[1] <= 39)
  {
    hide OidContent, Wrapped;
    if |oid| >= 2 && oid[0] == 2 && oid[1] >= 4_294_967_216 {
      assert (oid[0] * 40 + oid[1]) % TWO_32 == oid[1] - 4_294_967_216;
    }
  }

  /** An identifier whose last group is unfinished is refused. */
  lemma {:induction false} UnfinishedIsRefused(bytes: seq<Byte>, value: U32, pending: bool)
    requires if bytes == [] then pending else bytes[|bytes| - 1] >= 0x80
    ensures Components(bytes, value, pending) == None
  {
    if bytes != [] {
      var v := value * 128 + bytes[0] % 128;
      if v < TWO_32 {
        if bytes[0] >= 0x80 {
          UnfinishedIsRefused(bytes[1..], v, true);
        } else {
          UnfinishedIsRefused(bytes[1..], 0, false);
        }
      }
    }
  }

  /** Section 8.19.2 of X.690 forbids padding a group with leading zero digits; the decoder accepts it. */
  lemma PaddingIsAccepted(rest: seq<Byte>)
    requires rest != []
    ensures Components([0x80] + rest, 0, false) == Components(rest, 0, false)
  {
    assert ([0x80] + rest)[1..] == rest;
  }

  /** Whatever `decode_oid` yields, `encode_oid` accepts, and the value survives. */
  lemma DecodedIsRepresentable(bytes: seq<Byte>)
    requires DecodedOid(bytes).Some?
    ensures Representable(DecodedOid(bytes).value)
  {
    var first := bytes[0];
    var oid := DecodedOid(bytes).value;
    assert oid[0] == FirstArc(first) && oid[1] == first - FirstArc(first) * 40;
  }

  /** The `u32` sum wraps: 2.4294967216 is accepted and encoded as 0.0. */
  lemma WrappedArcIsMisread()
    ensures Accepted([2, 4294967216]) && DecodedOid(OidContent([2, 4294967216])) == Some([0, 0])
  {
    var oid: Oid := [2, 4294967216];
    assert EncodedComponents(oid[2..]) == [];
    var bytes := OidContent(oid);
    assert bytes == [0];
    assert Components(bytes[1..], 0, false) == Some([]);
    var rest: Oid := [];
    assert [0, 0] + rest == [0, 0];
  }
}
