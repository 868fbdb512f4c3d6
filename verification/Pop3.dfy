/**
 The POP3 session: credentials, a mailbox with deletion marks, and the views STAT, LIST, UIDL and RETR give of it.
 Command lines are text; message contents are their bytes.
 */
module Pop3 {
  import opened Wrappers
  import opened Bytes
  import opened Sequences
  import opened MailText

  datatype Message = Message(sender: Text, recipients: seq<Text>, subject: Text, date: Option<Text>, body: Text, uid: Option<Text>)

  datatype Config = Config(
    requireAuth: bool, credentials: seq<(string, string)>, messages: seq<Message>,
    custom: (string, string) -> Option<string>, blank: Table, decodePlain: string -> Option<(string, string)>)

  const CRLF: Text := [13, 10]

  function Join(parts: seq<Text>, separator: Text): Text {
    if parts == [] then []
    else if |parts| == 1 then parts[0]
    else parts[0] + separator + Join(parts[1..], separator)
  }

  function Headers(m: Message): seq<Text> {
    [Ascii("From: ") + m.sender, Ascii("To: ") + Join(m.recipients, Ascii(", ")), Ascii("Subject: ") + m.subject]
    + (if m.date.Some? then [Ascii("Date: ") + m.date.value] else [])
    + [Ascii("MIME-Version: 1.0"), Ascii("Content-Type: text/plain; charset=utf-8")]
  }

  function Rfc822(m: Message): Text {
    Join(Headers(m), CRLF) + CRLF + CRLF + m.body + CRLF
  }

  function SizeOf(m: Message): nat {
    |Rfc822(m)|
  }

  function UidOf(m: Message): Text {
    if m.uid.Some? then m.uid.value else Ascii("seclab-uid")
  }

  // ---------------------------------------------------------------------------
  // The session and its views
  // ---------------------------------------------------------------------------

  datatype Session = Session(username: Option<string>, authed: bool, deleted: seq<nat>)

  function Unmarked(n: nat): (deleted: seq<nat>)
    ensures |deleted| == n && forall i :: 0 <= i < n ==> deleted[i] == 0
  {
    seq(n, i => 0)
  }

  function NewSession(config: Config): Session {
    Session(None, !config.requireAuth, Unmarked(|config.messages|))
  }

  predicate IsDeleted(deleted: seq<nat>, i: nat) {
    i < |deleted| && deleted[i] == 1
  }

  /** The indices below `n` that are not deleted, in order. */
  function Visible(deleted: seq<nat>, n: nat): (r: seq<nat>)
    ensures |r| <= n
    ensures forall k :: 0 <= k < |r| ==> r[k] < n && !IsDeleted(deleted, r[k])
  {
    if n == 0 then []
    else if IsDeleted(deleted, n - 1) then Visible(deleted, n - 1)
    else Visible(deleted, n - 1) + [n - 1]
  }

  function DeletedIndices(deleted: seq<nat>, n: nat): (r: seq<nat>)
    ensures forall k :: 0 <= k < |r| ==> r[k] < n && IsDeleted(deleted, r[k])
  {
    if n == 0 then []
    else if IsDeleted(deleted, n - 1) then DeletedIndices(deleted, n - 1) + [n - 1]
    else DeletedIndices(deleted, n - 1)
  }

  /** The view is in order and misses no undeleted message. */
  lemma {:induction false} VisibleIsComplete(deleted: seq<nat>, n: nat, i: nat)
    ensures i in Visible(deleted, n) <==> i < n && !IsDeleted(deleted, i)
    ensures forall j, k :: 0 <= j < k < |Visible(deleted, n)| ==> Visible(deleted, n)[j] < Visible(deleted, n)[k]
  {
    hide IsDeleted;
    if n > 0 {
      VisibleIsComplete(deleted, n - 1, i);
    }
  }

  ghost predicate InRange(indices: seq<nat>, messages: seq<Message>) {
    forall k :: 0 <= k < |indices| ==> indices[k] < |messages|
  }

  function TotalSize(messages: seq<Message>, indices: seq<nat>): nat
    requires InRange(indices, messages)
  {
    if indices == [] then 0
    else TotalSize(messages, indices[..|indices| - 1]) + SizeOf(messages[indices[|indices| - 1]])
  }

  function Listing(messages: seq<Message>, indices: seq<nat>): (entries: seq<(nat, nat)>)
    requires InRange(indices, messages)
    ensures |entries| == |indices|
  {
    seq(|indices|, k requires 0 <= k < |indices| => (indices[k] + 1, SizeOf(messages[indices[k]])))
  }

  function UidListing(messages: seq<Message>, indices: seq<nat>): (entries: seq<(nat, Text)>)
    requires InRange(indices, messages)
    ensures |entries| == |indices|
  {
    seq(|indices|, k requires 0 <= k < |indices| => (indices[k] + 1, UidOf(messages[indices[k]])))
  }

  function View(config: Config, s: Session): (r: seq<nat>)
    ensures InRange(r, config.messages)
  {
    Visible(s.deleted, |config.messages|)
  }

  // ---------------------------------------------------------------------------
  // Message numbers
  // ---------------------------------------------------------------------------

  predicate IsDigit(c: char) {
    '0' <= c <= '9'
  }

  predicate AllDigits(s: string) {
    forall i :: 0 <= i < |s| ==> IsDigit(s[i])
  }

  function Value(s: string): nat
    requires AllDigits(s)
  {
    if s == "" then 0 else Value(s[..|s| - 1]) * 10 + (s[|s| - 1] - '0') as nat
  }

  /** Rust's parse of an unsigned 64-bit number: an optional plus sign, then digits. */
  function ParseNumber(word: string): Option<nat> {
    var digits := if word != "" && word[0] == '+' then word[1..] else word;
    if digits == "" || !AllDigits(digits) || Value(digits) >= TWO_64 then None else Some(Value(digits))
  }

  /** The index a message number names: one less, and none for zero. */
  function ParseIndex(args: string, blank: Table): Option<nat> {
    var words := Words(args, blank);
    if words == [] then None
    else
      var n := ParseNumber(words[0]);
      if n.None? || n.value == 0 then None else Some(n.value - 1)
  }

  function Decimal(n: nat): (s: string)
    ensures s != ""
  {
    var digit := ['0' + (n % 10) as char];
    if n < 10 then digit else Decimal(n / 10) + digit
  }

  lemma {:induction false} DecimalReads(n: nat)
    ensures AllDigits(Decimal(n)) && Value(Decimal(n)) == n
  {
    if n >= 10 {
      DecimalReads(n / 10);
      var s := Decimal(n);
      assert s[..|s| - 1] == Decimal(n / 10);
    }
  }

  /** A number printed in a listing is read back as the message it stands for. */
  lemma NumberReads(n: nat)
    requires n < TWO_64
    ensures ParseNumber(Decimal(n)) == Some(n)
  {
    hide Value, Decimal;
    DecimalReads(n);
    assert IsDigit(Decimal(n)[0]);
  }

  lemma {:induction false} OneWord(word: string, blank: Table)
    requires word != "" && forall i :: 0 <= i < |word| ==> !blank(word[i])
    ensures Words(word, blank) == [word]
  {
    WholeWord(word, blank);
    assert word[..|word|] == word && word[|word|..] == "";
  }

  lemma {:induction false} WholeWord(word: string, blank: Table)
    requires word != "" && forall i :: 0 <= i < |word| ==> !blank(word[i])
    ensures WordLength(word, blank) == |word|
  {
    if |word| > 1 {
      WholeWord(word[1..], blank);
    }
  }

  /** The decimal digits of `n`, with any number of zeros before them. */
  ghost predicate PaddedDecimal(s: string, n: nat) {
    exists k :: 0 <= k <= |s| && AllZeros(s[..k]) && s[k..] == Decimal(n)
  }

  predicate AllZeros(s: string) {
    forall i :: 0 <= i < |s| ==> s[i] == '0'
  }

  lemma OneDigit(c: char)
    requires IsDigit(c)
    ensures Decimal((c - '0') as nat) == [c]
  {
  }

  lemma AllZerosMore(zeros: string)
    requires AllZeros(zeros)
    ensures AllZeros(zeros + "0")
  {
  }

  lemma DecimalGrows(n: nat, c: char)
    requires n > 0 && IsDigit(c)
    ensures Decimal(10 * n + (c - '0') as nat) == Decimal(n) + [c]
  {
    var m := 10 * n + (c - '0') as nat;
    assert m / 10 == n && m % 10 == (c - '0') as nat;
    assert '0' + (m % 10) as char == c;
  }

  lemma ZeroIsOneDigit()
    ensures Decimal(0) == "0"
  {
  }

  lemma OneMoreDigit(s: string, n: nat, c: char)
    requires PaddedDecimal(s, n) && IsDigit(c)
    ensures PaddedDecimal(s + [c], 10 * n + (c - '0') as nat)
  {
    hide AllZeros, Decimal;
    var k :| 0 <= k <= |s| && AllZeros(s[..k]) && s[k..] == Decimal(n);
    if n == 0 {
      ZeroIsOneDigit();
      assert s == s[..k] + "0";
      AllZerosMore(s[..k]);
      OneDigit(c);
      assert (s + [c])[..|s|] == s && (s + [c])[|s|..] == [c];
    } else {
      DecimalGrows(n, c);
      assert (s + [c])[..k] == s[..k] && (s + [c])[k..] == Decimal(n) + [c];
    }
  }

  lemma ValueStep(s: string, c: char)
    requires AllDigits(s + [c])
    ensures AllDigits(s) && IsDigit(c) && Value(s + [c]) == 10 * Value(s) + (c - '0') as nat
  {
    assert (s + [c])[|s|] == c && (s + [c])[..|s|] == s;
    forall i | 0 <= i < |s|
      ensures IsDigit(s[i])
    {
      assert s[i] == (s + [c])[i];
    }
  }

  lemma {:induction false} DigitsArePrinted(s: string)
    requires s != "" && AllDigits(s)
    ensures PaddedDecimal(s, Value(s))
  {
    hide PaddedDecimal, Decimal, AllZeros, Value, AllDigits;
    var last := |s| - 1;
    assert s == s[..last] + [s[last]];
    ValueStep(s[..last], s[last]);
    if last == 0 {
      OneDigit(s[0]);
      NoZeros([s[0]], (s[0] - '0') as nat);
      assert s[..0] == "";
      NoDigits();
    } else {
      DigitsArePrinted(s[..last]);
      OneMoreDigit(s[..last], Value(s[..last]), s[last]);
    }
  }

  lemma NoDigits()
    ensures Value("") == 0
  {
  }

  lemma NoZeros(s: string, n: nat)
    requires s == Decimal(n)
    ensures PaddedDecimal(s, n)
  {
    assert AllZeros(s[..0]) && s[0..] == s;
  }

  lemma {:induction false} ZerosCountForNothing(zeros: string, digits: string)
    requires AllZeros(zeros) && AllDigits(digits)
    ensures AllDigits(zeros + digits) && Value(zeros + digits) == Value(digits)
  {
    var s := zeros + digits;
    assert AllDigits(s);
    if s != "" {
      if digits == "" {
        assert s == zeros && zeros[..|zeros| - 1] + "" == zeros[..|zeros| - 1] == s[..|s| - 1];
        ZerosCountForNothing(zeros[..|zeros| - 1], "");
      } else {
        assert s[..|s| - 1] == zeros + digits[..|digits| - 1];
        ZerosCountForNothing(zeros, digits[..|digits| - 1]);
      }
    }
  }

  lemma PrintedIsItsValue(s: string, n: nat)
    ensures PaddedDecimal(s, n) <==> s != "" && AllDigits(s) && Value(s) == n
  {
    hide Value, Decimal, AllDigits, AllZeros;
    if PaddedDecimal(s, n) {
      var k :| 0 <= k <= |s| && AllZeros(s[..k]) && s[k..] == Decimal(n);
      DecimalReads(n);
      ZerosCountForNothing(s[..k], s[k..]);
      assert s == s[..k] + s[k..];
    }
    if s != "" && AllDigits(s) && Value(s) == n {
      DigitsArePrinted(s);
    }
  }

  /** A word is read as a number exactly when it is one of 64 bits in decimal, padded or not, after a plus sign or none. */
  lemma NumbersParseExactly(word: string, n: nat)
    ensures ParseNumber(word) == Some(n) <==>
            && n < 0x1_0000_0000_0000_0000
            && (PaddedDecimal(word, n) || (word != "" && word[0] == '+' && PaddedDecimal(word[1..], n)))
  {
    hide Value, PaddedDecimal;
    PrintedIsItsValue(word, n);
    if word != "" && word[0] == '+' {
      PrintedIsItsValue(word[1..], n);
      assert !IsDigit(word[0]);
    }
  }

  /** The printed number of a message names its index; zero names none. */
  lemma IndexReads(n: nat, blank: Table)
    requires n < TWO_64 && forall c :: IsDigit(c) ==> !blank(c)
    ensures ParseIndex(Decimal(n), blank) == if n == 0 then None else Some(n - 1)
  {
    hide Value, Decimal, Words, ParseNumber;
    DecimalReads(n);
    NumberReads(n);
    OneWord(Decimal(n), blank);
  }

  // ---------------------------------------------------------------------------
  // One turn
  // ---------------------------------------------------------------------------

  datatype Reply =
    | Banner | Capabilities
    | UserOk | PassOk | PassBad | Continue | AuthOk | AuthBad | NeedAuth
    | Stat(count: nat, size: nat)
    | Scan(number: nat, octets: nat) | ScanListing(entries: seq<(nat, nat)>)
    | Uid(number: nat, uid: Text) | UniqueListing(uids: seq<(nat, Text)>)
    | Retrieved(announced: nat, content: Text)
    | NoSuchMessage | NumberRequired | Marked | ResetOk | NoopOk | Bye | Unknown
    | Custom(text: string)

  /** `check` is the result of a credential check made in the turn. */
  datatype Turn = Turn(used: nat, replies: seq<Reply>, after: Session, quit: bool, check: Option<bool>)

  function Plain(replies: seq<Reply>, after: Session): Turn {
    Turn(1, replies, after, false, None)
  }

  datatype Verb = Capa | User | Pass | Auth | StatV | ListV | Uidl | Retr | Dele | Rset | Noop | Quit | Other

  function VerbOf(upper: string): Verb {
    if upper == "CAPA" then Capa
    else if upper == "USER" then User
    else if upper == "PASS" then Pass
    else if upper == "AUTH" then Auth
    else if upper == "STAT" then StatV
    else if upper == "LIST" then ListV
    else if upper == "UIDL" then Uidl
    else if upper == "RETR" || upper == "TOP" then Retr
    else if upper == "DELE" then Dele
    else if upper == "RSET" then Rset
    else if upper == "NOOP" then Noop
    else if upper == "QUIT" then Quit
    else Other
  }

  function PassTurn(config: Config, s: Session, args: string): Turn {
    var ok := CredentialsMatch(config.credentials, TextOr(s.username), args);
    Turn(1, [if ok then PassOk else PassBad], s.(authed := ok), false, Some(ok))
  }

  /** The credentials an AUTH command brings, if they can be decoded. */
  function Check(config: Config, value: Option<string>): Option<bool> {
    if value.None? || config.decodePlain(value.value).None? then None
    else
      var pair := config.decodePlain(value.value).value;
      Some(CredentialsMatch(config.credentials, pair.0, pair.1))
  }

  function AuthTurn(config: Config, s: Session, args: string, rest: seq<string>): Turn {
    var words := Words(args, config.blank);
    var initial := WordOr(words, 1);
    var plain := Upper(WordOr(words, 0)) == "PLAIN";
    var asks := plain && initial == "";
    var value := if !plain then None else if !asks then Some(initial) else if rest == [] then None else Some(rest[0]);
    var check := Check(config, value);
    var after := s.(authed := if check.Some? then check.value else s.authed);
    Turn(if asks && rest != [] then 2 else 1, (if asks then [Continue] else []) + [if after.authed then AuthOk else AuthBad],
         after, false, check)
  }

  predicate CanShow(config: Config, s: Session, index: nat) {
    index < |config.messages| && !IsDeleted(s.deleted, index)
  }

  function ListTurn(config: Config, s: Session, args: string): Turn {
    match ParseIndex(args, config.blank)
    case Some(i) =>
      Plain([if CanShow(config, s, i) then Scan(i + 1, SizeOf(config.messages[i])) else NoSuchMessage], s)
    case None => Plain([ScanListing(Listing(config.messages, View(config, s)))], s)
  }

  function UidlTurn(config: Config, s: Session, args: string): Turn {
    match ParseIndex(args, config.blank)
    case Some(i) => Plain([if CanShow(config, s, i) then Uid(i + 1, UidOf(config.messages[i])) else NoSuchMessage], s)
    case None => Plain([UniqueListing(UidListing(config.messages, View(config, s)))], s)
  }

  function RetrTurn(config: Config, s: Session, args: string): Turn {
    match ParseIndex(args, config.blank)
    case Some(i) =>
      Plain([if CanShow(config, s, i) then Retrieved(SizeOf(config.messages[i]), Rfc822(config.messages[i])) else NoSuchMessage], s)
    case None => Plain([NumberRequired], s)
  }

  function DeleTurn(config: Config, s: Session, args: string): Turn {
    match ParseIndex(args, config.blank)
    case Some(i) =>
      if i < |s.deleted| then Plain([Marked], s.(deleted := s.deleted[i := 1])) else Plain([NoSuchMessage], s)
    case None => Plain([NumberRequired], s)
  }

  function MailboxTurn(config: Config, s: Session, verb: Verb, args: string): Turn {
    if !s.authed then Plain([NeedAuth], s)
    else
      match verb
      case StatV => Plain([Stat(|View(config, s)|, TotalSize(config.messages, View(config, s)))], s)
      case ListV => ListTurn(config, s, args)
      case Uidl => UidlTurn(config, s, args)
      case Retr => RetrTurn(config, s, args)
      case _ => DeleTurn(config, s, args)
  }

  function CommandTurn(config: Config, s: Session, verb: Verb, args: string, rest: seq<string>): Turn {
    match verb
    case Capa => Plain([Capabilities], s)
    case User => Plain([UserOk], s.(username := Some(args)))
    case Pass => PassTurn(config, s, args)
    case Auth => AuthTurn(config, s, args, rest)
    case Rset => Plain([ResetOk], s.(deleted := Unmarked(|s.deleted|)))
    case Noop => Plain([NoopOk], s)
    case Quit => Plain([Bye], s).(quit := true)
    case Other => Plain([Unknown], s)
    case _ => MailboxTurn(config, s, verb, args)
  }

  function TurnOf(config: Config, s: Session, lines: seq<string>): (turn: Turn)
    requires lines != []
    ensures 1 <= turn.used <= |lines|
  {
    var line := lines[0];
    if Trim(line, config.blank) == "" then Plain([], s)
    else
      var (command, args) := SplitCommand(line, config.blank);
      var custom := config.custom(Upper(command), line);
      if custom.Some? then Plain([Custom(custom.value)], s)
      else CommandTurn(config, s, VerbOf(Upper(command)), args, lines[1..])
  }

  // ---------------------------------------------------------------------------
  // The views agree
  // ---------------------------------------------------------------------------

  function SumSizes(entries: seq<(nat, nat)>): nat {
    if entries == [] then 0 else SumSizes(entries[..|entries| - 1]) + entries[|entries| - 1].1
  }

  lemma {:induction false} ListingAddsUp(messages: seq<Message>, indices: seq<nat>)
    requires InRange(indices, messages)
    ensures SumSizes(Listing(messages, indices)) == TotalSize(messages, indices)
  {
    hide SizeOf;
    if indices != [] {
      var init := indices[..|indices| - 1];
      ListingAddsUp(messages, init);
      assert Listing(messages, indices)[..|indices| - 1] == Listing(messages, init);
    }
  }

  /** The message at an index is there and not marked. */
  predicate IsThere(config: Config, s: Session, i: nat) {
    i < |config.messages| && !(i < |s.deleted| && s.deleted[i] == 1)
  }

  /** An entry of a listing: the number and the size of an undeleted message. */
  predicate IsEntry(config: Config, s: Session, entry: (nat, nat)) {
    entry.0 >= 1 && IsThere(config, s, entry.0 - 1) && entry.1 == |Rfc822(config.messages[entry.0 - 1])|
  }

  predicate HasNumber(entries: seq<(nat, nat)>, number: nat) {
    exists k :: 0 <= k < |entries| && entries[k].0 == number
  }

  /** A listing shows exactly the undeleted messages, in order, each with its number and size. */
  ghost predicate ShowsMailbox(config: Config, s: Session, entries: seq<(nat, nat)>) {
    && (forall k :: 0 <= k < |entries| ==> IsEntry(config, s, entries[k]))
    && (forall j, k :: 0 <= j < k < |entries| ==> entries[j].0 < entries[k].0)
    && (forall i: nat :: IsThere(config, s, i) ==> HasNumber(entries, i + 1))
  }

  /** The unique ids of the same numbers: each message's own, or the default one. */
  ghost predicate SameNumbers(config: Config, entries: seq<(nat, nat)>, uids: seq<(nat, Text)>) {
    && |uids| == |entries|
    && forall k :: 0 <= k < |uids| ==>
         && uids[k].0 == entries[k].0 && 1 <= uids[k].0 <= |config.messages|
         && var m := config.messages[uids[k].0 - 1]; uids[k].1 == if m.uid.Some? then m.uid.value else Ascii("seclab-uid")
  }

  /**
   In any authenticated session LIST without a number answers with exactly the undeleted messages in order, STAT with
   the number of these entries and the sum of their sizes, and UIDL with the same numbers and each message's id.
   */
  lemma ViewsAgree(config: Config, s: Session, args: string)
    requires s.authed && ParseIndex(args, config.blank).None?
    ensures var listed := MailboxTurn(config, s, ListV, args);
            var counted := MailboxTurn(config, s, StatV, args);
            var named := MailboxTurn(config, s, Uidl, args);
            && listed.after == counted.after == named.after == s
            && |listed.replies| == |counted.replies| == |named.replies| == 1
            && listed.replies[0].ScanListing? && named.replies[0].UniqueListing?
            && ShowsMailbox(config, s, listed.replies[0].entries)
            && counted.replies[0] == Stat(|listed.replies[0].entries|, SumSizes(listed.replies[0].entries))
            && SameNumbers(config, listed.replies[0].entries, named.replies[0].uids)
  {
    hide SizeOf, UidOf, TotalSize, SumSizes, ParseIndex, Visible, ShowsMailbox, SameNumbers;
    ListingAddsUp(config.messages, View(config, s));
    ListingShows(config, s);
    UidsShow(config, s);
  }

  lemma ListingShows(config: Config, s: Session)
    ensures ShowsMailbox(config, s, Listing(config.messages, View(config, s)))
  {
    hide Rfc822, Visible, IsThere, Listing, IsEntry, HasNumber, View;
    var entries := Listing(config.messages, View(config, s));
    forall k | 0 <= k < |entries|
      ensures IsEntry(config, s, entries[k])
    {
      EntryShows(config, s, k);
    }
    forall j, k | 0 <= j < k < |entries|
      ensures entries[j].0 < entries[k].0
    {
      NumbersRise(config, s, j, k);
    }
    forall i: nat | IsThere(config, s, i)
      ensures HasNumber(entries, i + 1)
    {
      ThereIsListed(config, s, i);
    }
  }

  lemma NumbersRise(config: Config, s: Session, j: nat, k: nat)
    requires j < k < |View(config, s)|
    ensures Listing(config.messages, View(config, s))[j].0 < Listing(config.messages, View(config, s))[k].0
  {
    hide Rfc822, Visible;
    VisibleIsComplete(s.deleted, |config.messages|, 0);
  }

  lemma EntryShows(config: Config, s: Session, k: nat)
    requires k < |View(config, s)|
    ensures IsEntry(config, s, Listing(config.messages, View(config, s))[k])
  {
    hide Rfc822, Visible;
    assert !IsDeleted(s.deleted, View(config, s)[k]);
  }

  lemma ThereIsListed(config: Config, s: Session, i: nat)
    requires IsThere(config, s, i)
    ensures HasNumber(Listing(config.messages, View(config, s)), i + 1)
  {
    hide Rfc822, Visible;
    var indices, entries := View(config, s), Listing(config.messages, View(config, s));
    VisibleIsComplete(s.deleted, |config.messages|, i);
    var k :| 0 <= k < |indices| && indices[k] == i;
    assert entries[k].0 == i + 1;
  }

  lemma UidsShow(config: Config, s: Session)
    ensures SameNumbers(config, Listing(config.messages, View(config, s)), UidListing(config.messages, View(config, s)))
  {
    hide Rfc822, Visible, Ascii;
  }

  /** With a number LIST, UIDL and RETR answer for that message if it is there, and say so if it is not. */
  lemma NumbersAreAnswered(config: Config, s: Session, args: string, i: nat)
    requires s.authed && ParseIndex(args, config.blank) == Some(i)
    ensures var listed := MailboxTurn(config, s, ListV, args).replies;
            var named := MailboxTurn(config, s, Uidl, args).replies;
            var sent := MailboxTurn(config, s, Retr, args).replies;
            if IsThere(config, s, i) then
              var m := config.messages[i];
              && listed == [Scan(i + 1, |Rfc822(m)|)]
              && named == [Uid(i + 1, if m.uid.Some? then m.uid.value else Ascii("seclab-uid"))]
              && sent == [Retrieved(|Rfc822(m)|, Rfc822(m))]
            else listed == named == sent == [NoSuchMessage]
  {
    hide Rfc822, ParseIndex, Ascii;
  }

  /** LIST shows the message at an index, with a size. */
  predicate Lists(config: Config, s: Session, i: nat, size: nat) {
    (i + 1, size) in Listing(config.messages, View(config, s))
  }

  lemma ListsExactlyVisible(config: Config, s: Session, i: nat)
    ensures CanShow(config, s, i) <==> exists size :: Lists(config, s, i, size)
    ensures forall size :: Lists(config, s, i, size) ==> CanShow(config, s, i) && size == SizeOf(config.messages[i])
  {
    hide SizeOf, IsDeleted, Visible;
    var indices, entries := View(config, s), Listing(config.messages, View(config, s));
    VisibleIsComplete(s.deleted, |config.messages|, i);
    if CanShow(config, s, i) {
      var k :| 0 <= k < |indices| && indices[k] == i;
      assert entries[k] == (i + 1, SizeOf(config.messages[i]));
      assert Lists(config, s, i, SizeOf(config.messages[i]));
    }
    forall size | Lists(config, s, i, size)
      ensures CanShow(config, s, i) && size == SizeOf(config.messages[i])
    {
      var k :| 0 <= k < |entries| && entries[k] == (i + 1, size);
      assert indices[k] == i;
    }
  }

  /** RETR answers with a message exactly when LIST shows its number; it announces the listed size and sends that many bytes. */
  lemma RetrievesWhatIsListed(config: Config, s: Session, args: string, i: nat)
    requires s.authed && ParseIndex(args, config.blank) == Some(i)
    ensures var reply := MailboxTurn(config, s, Retr, args).replies[0];
            && (reply.Retrieved? <==> exists size :: Lists(config, s, i, size))
            && (reply.Retrieved? ==> Lists(config, s, i, reply.announced) && |reply.content| == reply.announced)
    ensures MailboxTurn(config, s, ListV, args).replies[0].Scan? <==> MailboxTurn(config, s, Retr, args).replies[0].Retrieved?
  {
    hide Rfc822, Listing, View, ParseIndex;
    ListsExactlyVisible(config, s, i);
  }

  // ---------------------------------------------------------------------------
  // What a client reads up to the closing dot
  // ---------------------------------------------------------------------------

  const DOT: Byte := 46
  const DOT_LINE: Text := [46, 13, 10]

  predicate LineEndAt(s: Text, k: nat) {
    k + 2 <= |s| && s[k] == 13 && s[k + 1] == 10
  }

  /** Where the first line ends. */
  function LineEnd(s: Text): (r: Option<nat>)
    ensures r.Some? ==> LineEndAt(s, r.value)
    ensures forall k :: 0 <= k < |s| && (r.Some? ==> k < r.value) ==> !LineEndAt(s, k)
  {
    if |s| < 2 then None
    else if LineEndAt(s, 0) then Some(0)
    else
      var r := LineEnd(s[1..]);
      assert forall k :: 0 < k < |s| ==> (LineEndAt(s, k) <==> LineEndAt(s[1..], k - 1));
      if r.Some? then Some(r.value + 1) else None
  }

  /** A client takes lines up to a lone dot. One that expects dot-stuffing drops a leading dot of every other line. */
  function ReadToDot(stream: Text, unstuffs: bool): Option<Text>
    decreases |stream|
  {
    match LineEnd(stream)
    case None => None
    case Some(k) =>
      var line := stream[..k];
      if line == [DOT] then Some([])
      else
        var rest := ReadToDot(stream[k + 2..], unstuffs);
        if rest.None? then None
        else Some((if unstuffs && line != [] && line[0] == DOT then line[1..] else line) + CRLF + rest.value)
  }

  predicate StartsLine(content: Text, p: nat) {
    p == 0 || (p >= 2 && LineEndAt(content, p - 2))
  }

  /** A line that such a client loses: a lone dot, or with dot-stuffing any that begins with a dot. */
  predicate Lost(content: Text, unstuffs: bool, p: nat) {
    && p < |content| && StartsLine(content, p) && content[p] == DOT
    && (unstuffs || LineEndAt(content, p + 1))
  }

  ghost predicate LosesLine(content: Text, unstuffs: bool) {
    exists p: nat :: Lost(content, unstuffs, p)
  }

  predicate WholeLines(content: Text) {
    content == [] || (|content| >= 2 && LineEndAt(content, |content| - 2))
  }

  lemma FirstLineEnd(content: Text, more: Text)
    requires WholeLines(content) && content != []
    ensures LineEnd(content).Some? && LineEnd(content + more) == LineEnd(content)
    ensures WholeLines(content[LineEnd(content).value + 2..])
  {
    var k := LineEnd(content).value;
    assert LineEndAt(content + more, k);
    assert forall j :: 0 <= j < k ==> (LineEndAt(content, j) <==> LineEndAt(content + more, j));
    var tail := content[k + 2..];
    if tail != [] {
      assert !LineEndAt(content, |content| - 2) || |content| - 2 >= k;
      assert |tail| != 1;
    }
  }

  lemma LostInTail(content: Text, unstuffs: bool, k: nat, p: nat)
    requires LineEndAt(content, k)
    ensures Lost(content[k + 2..], unstuffs, p) <==> Lost(content, unstuffs, p + k + 2)
  {
    var tail := content[k + 2..];
    assert forall j :: 0 <= j < |tail| ==> (LineEndAt(tail, j) <==> LineEndAt(content, j + k + 2));
    assert p == 1 ==> !LineEndAt(content, k + 1);
  }

  /** A loss is in the first line or in the lines after it. */
  lemma LosesFirstOrLater(content: Text, unstuffs: bool, k: nat)
    requires LineEnd(content) == Some(k)
    ensures LosesLine(content, unstuffs) <==> Lost(content, unstuffs, 0) || LosesLine(content[k + 2..], unstuffs)
  {
    hide LineEnd, Lost;
    if LosesLine(content, unstuffs) {
      var p: nat :| Lost(content, unstuffs, p);
      if p > 0 {
        LaterLine(content, unstuffs, k, p);
        LostInTail(content, unstuffs, k, p - k - 2);
      }
    }
    if LosesLine(content[k + 2..], unstuffs) {
      var p: nat :| Lost(content[k + 2..], unstuffs, p);
      LostInTail(content, unstuffs, k, p);
      assert Lost(content, unstuffs, p + k + 2);
    }
  }

  lemma LaterLine(content: Text, unstuffs: bool, k: nat, p: nat)
    requires LineEnd(content) == Some(k) && Lost(content, unstuffs, p) && p > 0
    ensures p >= k + 2
  {
    hide LineEnd;
    assert LineEndAt(content, p - 2);
  }

  lemma LosesFirst(content: Text, unstuffs: bool, k: nat)
    requires LineEnd(content) == Some(k)
    ensures Lost(content, unstuffs, 0) <==> content[..k] == [DOT] || (unstuffs && content[..k] != [] && content[..k][0] == DOT)
  {
    hide LineEnd;
    if Lost(content, unstuffs, 0) && !unstuffs {
      assert LineEndAt(content, 1);
      assert content[..1] == [DOT];
    }
  }

  /** Reading whole lines before a closing dot gives them back exactly when none is lost; else it gives fewer bytes. */
  lemma {:induction false} ReadsUpToDot(content: Text, unstuffs: bool, more: Text)
    requires WholeLines(content)
    ensures var r := ReadToDot(content + DOT_LINE + more, unstuffs);
            && r.Some? && |r.value| <= |content|
            && (LosesLine(content, unstuffs) ==> |r.value| < |content|)
            && (!LosesLine(content, unstuffs) ==> r.value == content)
    decreases |content|
  {
    hide LineEnd, WholeLines, Lost, LosesLine;
    var stream := content + DOT_LINE + more;
    if content == [] {
      DotLineEnds(stream, more);
    } else {
      FirstLineEnd(content, DOT_LINE + more);
      assert stream == content + (DOT_LINE + more);
      var k := LineEnd(content).value;
      assert LineEnd(stream) == Some(k);
      var line, tail := content[..k], content[k + 2..];
      assert stream[..k] == line && stream[k + 2..] == tail + DOT_LINE + more;
      assert content == line + CRLF + tail;
      ReadsUpToDot(tail, unstuffs, more);
      LosesFirstOrLater(content, unstuffs, k);
      LosesFirst(content, unstuffs, k);
    }
  }

  lemma DotLineEnds(stream: Text, more: Text)
    requires stream == [] + DOT_LINE + more
    ensures ReadToDot(stream, true) == Some([]) == ReadToDot(stream, false)
    ensures !LosesLine([], true) && !LosesLine([], false)
  {
    assert LineEndAt(stream, 1) && !LineEndAt(stream, 0);
    assert LineEnd(stream) == Some(1) && stream[..1] == [DOT];
  }

  /**
   A client that reads the answer to RETR up to the lone dot gets exactly the announced bytes exactly when no line of
   the message is a lone dot, or begins with a dot if it expects dot-stuffing; otherwise it gets fewer.
   */
  lemma ReadsTheMessageExactly(config: Config, s: Session, args: string, i: nat, unstuffs: bool, more: Text)
    requires s.authed && ParseIndex(args, config.blank) == Some(i) && CanShow(config, s, i)
    ensures var reply := MailboxTurn(config, s, Retr, args).replies[0];
            && reply.Retrieved?
            && ReadToDot(reply.content + DOT_LINE + more, unstuffs).Some?
            && var read := ReadToDot(reply.content + DOT_LINE + more, unstuffs).value;
            && (read == reply.content <==> !LosesLine(reply.content, unstuffs))
            && (|read| == reply.announced <==> !LosesLine(reply.content, unstuffs))
  {
    hide ParseIndex, LosesLine, ReadToDot, Rfc822;
    var content := Rfc822(config.messages[i]);
    MessageIsWholeLines(config.messages[i]);
    ReadsUpToDot(content, unstuffs, more);
  }

  /** A message that no such client gets whole: its body is a lone dot. */
  lemma LoneDotIsLost(m: Message, unstuffs: bool)
    requires m.body == [DOT]
    ensures LosesLine(Rfc822(m), unstuffs)
  {
    hide Headers, Join;
    var before := Join(Headers(m), CRLF);
    assert Rfc822(m) == before + [13, 10, 13, 10, 46, 13, 10];
    assert Lost(Rfc822(m), unstuffs, |before| + 4);
  }

  lemma MessageIsWholeLines(m: Message)
    ensures WholeLines(Rfc822(m))
  {
    hide Headers, Join;
    var before := Join(Headers(m), CRLF) + CRLF + CRLF + m.body;
    assert Rfc822(m) == before + CRLF;
  }

  // ---------------------------------------------------------------------------
  // What a client finds in a message
  // ---------------------------------------------------------------------------

  /** The header lines up to the first empty line, and what follows it. */
  function ReadHead(content: Text): Option<(seq<Text>, Text)>
    decreases |content|
  {
    match LineEnd(content)
    case None => None
    case Some(k) =>
      if k == 0 then Some(([], content[2..]))
      else
        var rest := ReadHead(content[k + 2..]);
        if rest.None? then None else Some(([content[..k]] + rest.value.0, rest.value.1))
  }

  /** A text without a line end. */
  ghost predicate OneLine(text: Text) {
    forall k :: 0 <= k < |text| ==> !LineEndAt(text, k)
  }

  lemma OneLineEnds(line: Text, rest: Text)
    requires OneLine(line)
    ensures LineEnd(line + CRLF + rest) == Some(|line|)
  {
    var s := line + CRLF + rest;
    assert LineEndAt(s, |line|);
    forall k | 0 <= k < |line|
      ensures !LineEndAt(s, k)
    {
      assert k + 1 < |line| ==> (LineEndAt(s, k) <==> LineEndAt(line, k));
    }
  }

  lemma {:induction false} HeadReads(lines: seq<Text>, rest: Text)
    requires forall i :: 0 <= i < |lines| ==> lines[i] != [] && OneLine(lines[i])
    requires lines != []
    ensures ReadHead(Join(lines, CRLF) + CRLF + CRLF + rest) == Some((lines, rest))
    decreases |lines|
  {
    hide LineEnd, OneLine;
    var first := lines[0];
    if |lines| == 1 {
      var tail := CRLF + rest;
      assert Join(lines, CRLF) + CRLF + CRLF + rest == first + CRLF + tail;
      OneLineEnds(first, tail);
      assert (first + CRLF + tail)[|first| + 2..] == tail && (first + CRLF + tail)[..|first|] == first;
      OneLineEnds([], rest) by {
        NoLine();
      }
      assert [] + CRLF + rest == tail && tail[2..] == rest;
      assert ReadHead(tail) == Some(([], rest));
      assert lines == [first] + [];
    } else {
      var tail := Join(lines[1..], CRLF) + CRLF + CRLF + rest;
      assert Join(lines, CRLF) + CRLF + CRLF + rest == first + CRLF + tail;
      OneLineEnds(first, tail);
      assert (first + CRLF + tail)[|first| + 2..] == tail && (first + CRLF + tail)[..|first|] == first;
      HeadReads(lines[1..], rest);
      assert lines == [first] + lines[1..];
    }
  }

  lemma NoLine()
    ensures OneLine([])
  {
  }

  lemma HeadingIsOneLine(heading: Text, text: Text)
    requires OneLine(text) && heading != [] && 13 !in heading && 10 !in heading
    ensures heading + text != [] && OneLine(heading + text)
  {
    var line := heading + text;
    forall k | 0 <= k < |line|
      ensures !LineEndAt(line, k)
    {
      assert k < |heading| ==> line[k] == heading[k] && line[k] in heading;
      assert k >= |heading| ==> (LineEndAt(line, k) <==> LineEndAt(text, k - |heading|));
    }
  }

  lemma Headings()
    ensures forall heading :: heading in [Ascii("From: "), Ascii("To: "), Ascii("Subject: "), Ascii("Date: ")] ==>
              heading != [] && 13 !in heading && 10 !in heading
  {
  }

  lemma FixedLines()
    ensures Ascii("MIME-Version: 1.0") != [] && OneLine(Ascii("MIME-Version: 1.0"))
    ensures Ascii("Content-Type: text/plain; charset=utf-8") != [] && OneLine(Ascii("Content-Type: text/plain; charset=utf-8"))
  {
  }

  /** The recipients with ", " between them. */
  function ToList(recipients: seq<Text>): Text {
    if recipients == [] then [] else if |recipients| == 1 then recipients[0] else recipients[0] + [44, 32] + ToList(recipients[1..])
  }

  lemma {:induction false} JoinIsToList(recipients: seq<Text>)
    ensures Join(recipients, Ascii(", ")) == ToList(recipients)
  {
    if |recipients| > 1 {
      JoinIsToList(recipients[1..]);
    }
  }

  /** The header lines a client must find for a message. */
  function HeaderLines(m: Message): seq<Text> {
    [Ascii("From: ") + m.sender, Ascii("To: ") + ToList(m.recipients), Ascii("Subject: ") + m.subject]
    + (if m.date.Some? then [Ascii("Date: ") + m.date.value] else [])
    + [Ascii("MIME-Version: 1.0"), Ascii("Content-Type: text/plain; charset=utf-8")]
  }

  /**
   A message whose fields hold no line end is read back as its sender, recipients, subject and date, each in its header
   line, and after the empty line its body, with one line end added.
   */
  lemma MessageReads(m: Message)
    requires OneLine(m.sender) && OneLine(ToList(m.recipients)) && OneLine(m.subject) && (m.date.Some? ==> OneLine(m.date.value))
    ensures ReadHead(Rfc822(m)) == Some((HeaderLines(m), m.body + [13, 10]))
  {
    hide Ascii, OneLine, Join, ReadHead;
    JoinIsToList(m.recipients);
    assert Headers(m) == HeaderLines(m);
    Headings();
    FixedLines();
    HeadingIsOneLine(Ascii("From: "), m.sender);
    HeadingIsOneLine(Ascii("To: "), ToList(m.recipients));
    HeadingIsOneLine(Ascii("Subject: "), m.subject);
    if m.date.Some? {
      HeadingIsOneLine(Ascii("Date: "), m.date.value);
    }
    HeadReads(HeaderLines(m), m.body + CRLF);
    assert Rfc822(m) == Join(HeaderLines(m), CRLF) + CRLF + CRLF + (m.body + CRLF);
  }

  lemma NextDeleted(messages: seq<Message>, deleted: seq<nat>, i: nat)
    requires i < |messages|
    ensures DeletedIndices(deleted, i + 1)
         == if IsDeleted(deleted, i) then DeletedIndices(deleted, i) + [i] else DeletedIndices(deleted, i)
    ensures TotalSize(messages, DeletedIndices(deleted, i) + [i]) == TotalSize(messages, DeletedIndices(deleted, i)) + SizeOf(messages[i])
  {
    hide SizeOf;
    TotalAppend(messages, DeletedIndices(deleted, i), i);
  }

  /**
   Whatever is marked, the visible and the deleted messages make up the mailbox, in number and in size; so does each
   part of it from the first message on.
   */
  lemma {:induction false} MailboxIsConserved(messages: seq<Message>, deleted: seq<nat>, n: nat)
    requires n <= |messages|
    ensures |Visible(deleted, n)| + |DeletedIndices(deleted, n)| == n
    ensures TotalSize(messages, Visible(deleted, n)) + TotalSize(messages, DeletedIndices(deleted, n))
         == SizeOfFirst(messages, n)
  {
    hide SizeOf, IsDeleted, Visible, DeletedIndices, TotalSize, SizeOfFirst;
    if n == 0 {
      NothingAtAll(messages, deleted);
    } else {
      MailboxIsConserved(messages, deleted, n - 1);
      NextVisible(messages, deleted, n - 1);
      NextDeleted(messages, deleted, n - 1);
      NextSize(messages, n - 1);
    }
  }

  lemma NothingAtAll(messages: seq<Message>, deleted: seq<nat>)
    ensures TotalSize(messages, []) == 0 == SizeOfFirst(messages, 0)
    ensures DeletedIndices(deleted, 0) == [] && Visible(deleted, 0) == []
  {
  }

  lemma NextSize(messages: seq<Message>, i: nat)
    requires i < |messages|
    ensures SizeOfFirst(messages, i + 1) == SizeOfFirst(messages, i) + SizeOf(messages[i])
  {
  }

  function SizeOfFirst(messages: seq<Message>, n: nat): nat
    requires n <= |messages|
  {
    if n == 0 then 0 else SizeOfFirst(messages, n - 1) + SizeOf(messages[n - 1])
  }

  function All(n: nat): (r: seq<nat>)
    ensures |r| == n && forall k :: 0 <= k < n ==> r[k] < n
  {
    seq(n, i requires 0 <= i < n => i)
  }

  lemma TotalAppend(messages: seq<Message>, indices: seq<nat>, i: nat)
    requires InRange(indices, messages) && i < |messages|
    ensures InRange(indices + [i], messages)
    ensures TotalSize(messages, indices + [i]) == TotalSize(messages, indices) + SizeOf(messages[i])
  {
    hide SizeOf;
    assert (indices + [i])[..|indices|] == indices;
  }

  lemma {:induction false} DeleteOne(messages: seq<Message>, deleted: seq<nat>, i: nat, n: nat)
    requires n <= |messages| && i < n && i < |deleted| && !IsDeleted(deleted, i)
    ensures |Visible(deleted[i := 1], n)| + 1 == |Visible(deleted, n)|
    ensures TotalSize(messages, Visible(deleted[i := 1], n)) + SizeOf(messages[i]) == TotalSize(messages, Visible(deleted, n))
  {
    hide SizeOf, Visible, TotalSize;
    NextVisible(messages, deleted, n - 1);
    NextVisible(messages, deleted[i := 1], n - 1);
    if i == n - 1 {
      SameBelow(deleted, i, n - 1);
    } else {
      DeleteOne(messages, deleted, i, n - 1);
    }
  }

  lemma {:induction false} SameBelow(deleted: seq<nat>, i: nat, n: nat)
    requires n <= i < |deleted|
    ensures Visible(deleted[i := 1], n) == Visible(deleted, n)
  {
    if n > 0 {
      SameBelow(deleted, i, n - 1);
    }
  }

  /**
   DELE of a visible message hides it and takes exactly its size off the total; of any other it changes nothing. Yet it
   reports success for every message of the mailbox, so the report is true exactly of the visible ones.
   */
  lemma DeleteTakesItsSize(config: Config, s: Session, args: string, i: nat)
    requires s.authed && |s.deleted| == |config.messages| && ParseIndex(args, config.blank) == Some(i)
    ensures var turn := MailboxTurn(config, s, Dele, args);
            && (CanShow(config, s, i) ==>
                 |View(config, turn.after)| + 1 == |View(config, s)| && !CanShow(config, turn.after, i)
                 && TotalSize(config.messages, View(config, turn.after)) + SizeOf(config.messages[i])
                 == TotalSize(config.messages, View(config, s)))
            && (!CanShow(config, s, i) ==> turn.after == s)
            && (turn.replies == [Marked] <==> i < |config.messages|)
            && (turn.replies == [Marked] && |View(config, turn.after)| < |View(config, s)| <==> CanShow(config, s, i))
  {
    hide SizeOf, TotalSize, Visible;
    if CanShow(config, s, i) {
      DeleteOne(config.messages, s.deleted, i, |config.messages|);
    } else if i < |s.deleted| {
      assert s.deleted[i := 1] == s.deleted;
    }
  }

  /** DELE given twice: the second succeeds again and does nothing. */
  lemma SecondDeleteSucceedsToo(config: Config, s: Session, args: string, i: nat)
    requires s.authed && i < |s.deleted| && ParseIndex(args, config.blank) == Some(i)
    ensures var first := MailboxTurn(config, s, Dele, args);
            var second := MailboxTurn(config, first.after, Dele, args);
            second.replies == [Marked] && second.after == first.after && IsDeleted(first.after.deleted, i)
  {
    hide ParseIndex;
    assert s.deleted[i := 1][i := 1] == s.deleted[i := 1];
  }

  lemma {:induction false} AllVisible(deleted: seq<nat>, n: nat)
    requires forall i :: 0 <= i < |deleted| ==> deleted[i] == 0
    ensures Visible(deleted, n) == All(n)
  {
    if n > 0 {
      AllVisible(deleted, n - 1);
      assert All(n) == All(n - 1) + [n - 1];
    }
  }

  /** RSET restores the view the session began with, whatever was marked. */
  lemma ResetRestoresView(config: Config, s: Session, args: string, rest: seq<string>)
    ensures View(config, CommandTurn(config, s, Rset, args, rest).after) == View(config, NewSession(config))
    ensures View(config, NewSession(config)) == All(|config.messages|)
  {
    hide Visible;
    AllVisible(Unmarked(|s.deleted|), |config.messages|);
    AllVisible(Unmarked(|config.messages|), |config.messages|);
  }

  /** The credentials an AUTH command brings: of PLAIN, in its line or in the next one, if they decode. */
  function AuthPair(config: Config, args: string, rest: seq<string>): Option<(string, string)> {
    var words := Words(args, config.blank);
    if |words| == 0 || Upper(words[0]) != "PLAIN" then None
    else if |words| > 1 && words[1] != "" then config.decodePlain(words[1])
    else if rest != [] then config.decodePlain(rest[0])
    else None
  }

  /** The result of the credential check a command makes, if it makes one: a pair is checked against the configured ones. */
  function CheckBy(config: Config, s: Session, word: string, args: string, rest: seq<string>): Option<bool> {
    if word == "PASS" then Some((if s.username.Some? then s.username.value else "", args) in config.credentials)
    else if word == "AUTH" && AuthPair(config, args, rest).Some? then Some(AuthPair(config, args, rest).value in config.credentials)
    else None
  }

  function MarksBy(config: Config, s: Session, word: string, args: string): seq<nat> {
    var index := ParseIndex(args, config.blank);
    if word == "DELE" && s.authed && index.Some? && index.value < |s.deleted| then s.deleted[index.value := 1]
    else if word == "RSET" then seq(|s.deleted|, i => 0)
    else s.deleted
  }

  /** An AUTH PLAIN without its credentials, which asks for them. */
  predicate AsksForLine(config: Config, args: string) {
    var words := Words(args, config.blank);
    |words| > 0 && Upper(words[0]) == "PLAIN" && (|words| == 1 || words[1] == "")
  }

  /** What a command does to the session, and how many lines it takes. */
  predicate ChangesAs(config: Config, s: Session, word: string, args: string, rest: seq<string>, turn: Turn) {
    var check := CheckBy(config, s, word, args, rest);
    && turn.after.username == (if word == "USER" then Some(args) else s.username)
    && turn.check == check
    && turn.after.authed == (if check.Some? then check.value else s.authed)
    && turn.after.deleted == MarksBy(config, s, word, args)
    && (turn.quit <==> word == "QUIT")
    && turn.used == (if word == "AUTH" && AsksForLine(config, args) && rest != [] then 2 else 1)
  }

  lemma AuthChanges(config: Config, s: Session, args: string, rest: seq<string>)
    ensures ChangesAs(config, s, "AUTH", args, rest, AuthTurn(config, s, args, rest))
  {
    hide Words, Upper, ParseIndex;
  }

  lemma MailboxChanges(config: Config, s: Session, word: string, args: string, rest: seq<string>)
    requires VerbOf(word).StatV? || VerbOf(word).ListV? || VerbOf(word).Uidl? || VerbOf(word).Retr? || VerbOf(word).Dele?
    ensures ChangesAs(config, s, word, args, rest, MailboxTurn(config, s, VerbOf(word), args))
  {
    hide ParseIndex, Listing, UidListing, View, TotalSize, Rfc822, UidOf, AuthPair, AsksForLine, VerbOf;
    VerbsAreWords(word);
  }

  lemma VerbsAreWords(word: string)
    ensures VerbOf(word) == User <==> word == "USER"
    ensures VerbOf(word) == Pass <==> word == "PASS"
    ensures VerbOf(word) == Auth <==> word == "AUTH"
    ensures VerbOf(word) == Dele <==> word == "DELE"
    ensures VerbOf(word) == Rset <==> word == "RSET"
    ensures VerbOf(word) == Quit <==> word == "QUIT"
  {
  }

  lemma CommandChanges(config: Config, s: Session, word: string, args: string, rest: seq<string>)
    ensures ChangesAs(config, s, word, args, rest, CommandTurn(config, s, VerbOf(word), args, rest))
  {
    hide ParseIndex, MailboxTurn, AuthTurn, AuthPair, AsksForLine, VerbOf;
    VerbsAreWords(word);
    if word == "AUTH" {
      AuthChanges(config, s, args, rest);
    } else if VerbOf(word).StatV? || VerbOf(word).ListV? || VerbOf(word).Uidl? || VerbOf(word).Retr? || VerbOf(word).Dele? {
      MailboxChanges(config, s, word, args, rest);
    }
  }

  /**
   What each line does to the session: only USER sets the name, only PASS and AUTH check a pair against the configured
   ones and so decide who is in, only DELE and RSET touch the marks, only QUIT ends. AUTH PLAIN takes the line it asks for.
   */
  lemma TurnsChangeExactly(config: Config, s: Session, lines: seq<string>)
    requires lines != []
    ensures ChangesAs(config, s, CommandWord(lines[0], config.blank, config.custom), SplitCommand(lines[0], config.blank).1, lines[1..],
                      TurnOf(config, s, lines))
  {
    hide Trim, SplitCommand, Upper, CommandTurn, VerbOf, AuthPair, AsksForLine, ParseIndex;
    var (command, args) := SplitCommand(lines[0], config.blank);
    CommandChanges(config, s, Upper(command), args, lines[1..]);
  }

  /** What the commands outside the mailbox are answered with, AUTH apart. */
  function RepliesFor(config: Config, s: Session, word: string, args: string): seq<Reply> {
    if word == "CAPA" then [Capabilities]
    else if word == "USER" then [UserOk]
    else if word == "PASS" then [if CheckBy(config, s, word, args, []) == Some(true) then PassOk else PassBad]
    else if word == "RSET" then [ResetOk]
    else if word == "NOOP" then [NoopOk]
    else if word == "QUIT" then [Bye]
    else [Unknown]
  }

  lemma RemainingVerbs(word: string)
    ensures VerbOf(word) == Capa <==> word == "CAPA"
    ensures VerbOf(word) == Noop <==> word == "NOOP"
    ensures VerbOf(word) == StatV || VerbOf(word) == ListV || VerbOf(word) == Uidl || VerbOf(word) == Retr || VerbOf(word) == Dele
       <==> IsMailboxCommand(word)
  {
  }

  /**
   Every line gets its answer: none when blank, the custom response when there is one, the reply of its command word
   outside the mailbox; AUTH says whether the client is in after it, having asked for the missing line of PLAIN.
   */
  lemma LinesAreAnswered(config: Config, s: Session, lines: seq<string>)
    requires lines != []
    ensures var (command, args) := SplitCommand(lines[0], config.blank);
            var word, turn := Upper(command), TurnOf(config, s, lines);
            if Trim(lines[0], config.blank) == "" then turn.replies == []
            else if config.custom(word, lines[0]).Some? then turn.replies == [Custom(config.custom(word, lines[0]).value)]
            else if word == "AUTH" then
              turn.replies == (if AsksForLine(config, args) then [Continue] else []) + [if turn.after.authed then AuthOk else AuthBad]
            else if IsMailboxCommand(word) then true
            else turn.replies == RepliesFor(config, s, word, args)
  {
    hide Trim, SplitCommand, Upper, VerbOf, AuthTurn, MailboxTurn, AuthPair, AsksForLine;
    var (command, args) := SplitCommand(lines[0], config.blank);
    VerbsAreWords(Upper(command));
    RemainingVerbs(Upper(command));
    AuthAsks(config, s, args, lines[1..]);
  }

  lemma AuthAsks(config: Config, s: Session, args: string, rest: seq<string>)
    ensures var turn := AuthTurn(config, s, args, rest);
            turn.replies == (if AsksForLine(config, args) then [Continue] else []) + [if turn.after.authed then AuthOk else AuthBad]
  {
    hide Words, Check, Upper;
  }

  /** Without a number, or with one that names no message, RETR and DELE say so; DELE marks any message there is. */
  lemma WithoutMessage(config: Config, s: Session, args: string)
    requires s.authed && |s.deleted| == |config.messages|
    ensures ParseIndex(args, config.blank).None? ==>
              MailboxTurn(config, s, Retr, args).replies == MailboxTurn(config, s, Dele, args).replies == [NumberRequired]
    ensures ParseIndex(args, config.blank).Some? ==>
              MailboxTurn(config, s, Dele, args).replies
              == [if ParseIndex(args, config.blank).value < |config.messages| then Marked else NoSuchMessage]
  {
    hide ParseIndex, Rfc822;
  }

  /** The six mailbox commands are refused exactly without authentication. */
  predicate IsMailboxCommand(word: string) {
    word == "STAT" || word == "LIST" || word == "UIDL" || word == "RETR" || word == "TOP" || word == "DELE"
  }

  /** What each mailbox command does: TOP does what RETR does. */
  function MailboxVerb(word: string): Verb {
    if word == "STAT" then StatV
    else if word == "LIST" then ListV
    else if word == "UIDL" then Uidl
    else if word == "DELE" then Dele
    else Retr
  }

  lemma RefusedExactly(config: Config, s: Session, lines: seq<string>)
    requires lines != []
    ensures var word := CommandWord(lines[0], config.blank, config.custom);
            && (NeedAuth in TurnOf(config, s, lines).replies <==> IsMailboxCommand(word) && !s.authed)
            && (IsMailboxCommand(word) && s.authed ==>
                 TurnOf(config, s, lines) == MailboxTurn(config, s, MailboxVerb(word), SplitCommand(lines[0], config.blank).1))
  {
    hide Trim, SplitCommand, Upper, ParseIndex, AuthTurn, Listing, UidListing, View, TotalSize, Rfc822, UidOf;
    var (command, args) := SplitCommand(lines[0], config.blank);
    AuthAsksNoAuth(config, s, args, lines[1..]);
  }

  lemma AuthAsksNoAuth(config: Config, s: Session, args: string, rest: seq<string>)
    ensures NeedAuth !in AuthTurn(config, s, args, rest).replies
  {
    hide Words, Check, Upper;
  }

  predicate Marks(deleted: seq<nat>) {
    exists i :: 0 <= i < |deleted| && deleted[i] != 0
  }

  /** Without authentication exactly one turn changes the marks: RSET, when there are any. */
  lemma OnlyResetNeedsNoLogin(config: Config, s: Session, lines: seq<string>)
    requires lines != [] && !s.authed
    ensures TurnOf(config, s, lines).after.deleted != s.deleted
       <==> CommandWord(lines[0], config.blank, config.custom) == "RSET" && Marks(s.deleted)
  {
    hide Trim, SplitCommand, Upper, TurnOf, ParseIndex, CheckBy;
    TurnsChangeExactly(config, s, lines);
    if !Marks(s.deleted) {
      assert seq(|s.deleted|, i => 0) == s.deleted;
    }
  }

  // ---------------------------------------------------------------------------
  // Whole sessions
  // ---------------------------------------------------------------------------

  datatype Step = Step(before: Session, lines: seq<string>, turn: Turn)

  function Run(config: Config, s: Session, lines: seq<string>): seq<Step>
    decreases |lines|
  {
    if lines == [] then []
    else
      var turn := TurnOf(config, s, lines);
      var step := Step(s, lines[..turn.used], turn);
      if turn.quit then [step] else [step] + Run(config, turn.after, lines[turn.used..])
  }

  function RepliesOf(steps: seq<Step>): seq<Reply> {
    if steps == [] then [] else steps[0].turn.replies + RepliesOf(steps[1..])
  }

  /** One example mailbox: a login is required, `u` may enter with `p`, and there is one message. */
  function ExampleConfig(m: Message): Config {
    Config(true, [("u", "p")], [m], (command, line) => None, c => c == ' ', value => None)
  }

  /** The step at a command word and its arguments, where no custom response is set. */
  lemma StepAtCommand(m: Message, s: Session, lines: seq<string>, rest: seq<string>, word: string, args: string, turn: Turn)
    requires word != "" && ' ' !in word && lines != [] && rest == lines[1..]
    requires lines[0] == if args == "" then word else word + " " + args
    requires turn == CommandTurn(ExampleConfig(m), s, VerbOf(Upper(word)), Trim(args, ExampleConfig(m).blank), rest)
    requires turn.used == 1 && !turn.quit
    ensures Run(ExampleConfig(m), s, lines) == [Step(s, [lines[0]], turn)] + Run(ExampleConfig(m), turn.after, rest)
  {
    hide Trim, SplitCommand, Upper, VerbOf, CommandTurn;
    CommandReads(word, args, ExampleConfig(m).blank);
    assert lines[..1] == [lines[0]];
    EmptyTrim(ExampleConfig(m).blank);
  }

  lemma EmptyTrim(blank: Table)
    ensures Trim("", blank) == ""
  {
  }

  lemma ExampleWords()
    ensures Upper("USER") == "USER" && Upper("PASS") == "PASS" && Upper("DELE") == "DELE" && Upper("RSET") == "RSET"
  {
  }

  lemma ExampleVerbs()
    ensures VerbOf(Upper("USER")) == User && VerbOf(Upper("PASS")) == Pass
    ensures VerbOf(Upper("DELE")) == Dele && VerbOf(Upper("RSET")) == Rset
  {
    hide Upper;
    ExampleWords();
  }

  lemma ExampleArguments(m: Message)
    ensures var blank := ExampleConfig(m).blank;
            Trim("u", blank) == "u" && Trim("p", blank) == "p" && Trim("q", blank) == "q" && Trim("1", blank) == "1"
            && Trim("", blank) == ""
    ensures NewSession(ExampleConfig(m)) == ExampleSession(m, 0)
    ensures Marks(ExampleSession(m, 4).deleted) && !Marks(ExampleSession(m, 5).deleted) && !ExampleSession(m, 4).authed
  {
    assert ExampleSession(m, 4).deleted[0] == 1;
  }

  lemma ExampleIndex(blank: Table)
    requires !blank('1')
    ensures ParseIndex("1", blank) == Some(0)
  {
    assert "1"[..1] == "1" && Words("1", blank) == ["1"] + Words("1"[1..], blank);
    assert Value("1") == Value(""[..]) * 10 + 1;
  }

  /** The example session after each of its commands. */
  function ExampleSession(m: Message, k: nat): Session {
    var begun := NewSession(ExampleConfig(m));
    if k == 0 then begun
    else if k == 1 then begun.(username := Some("u"))
    else if k == 2 then Session(Some("u"), true, [0])
    else if k == 3 then Session(Some("u"), true, [1])
    else if k == 4 then Session(Some("u"), false, [1])
    else Session(Some("u"), false, [0])
  }

  lemma LoginTurns(m: Message, rest: seq<string>)
    ensures CommandTurn(ExampleConfig(m), ExampleSession(m, 0), User, "u", rest) == Plain([UserOk], ExampleSession(m, 1))
    ensures CommandTurn(ExampleConfig(m), ExampleSession(m, 1), Pass, "p", rest)
         == Turn(1, [PassOk], ExampleSession(m, 2), false, Some(true))
    ensures CommandTurn(ExampleConfig(m), ExampleSession(m, 3), Pass, "q", rest)
         == Turn(1, [PassBad], ExampleSession(m, 4), false, Some(false))
  {
  }

  lemma MarkTurns(m: Message, rest: seq<string>)
    ensures CommandTurn(ExampleConfig(m), ExampleSession(m, 2), Dele, "1", rest) == Plain([Marked], ExampleSession(m, 3))
    ensures CommandTurn(ExampleConfig(m), ExampleSession(m, 4), Rset, "", rest) == Plain([ResetOk], ExampleSession(m, 5))
  {
    hide ParseIndex;
    ExampleIndex(ExampleConfig(m).blank);
  }

  /** The marked message, the failed login and the reset. */
  lemma MarkThenReset(m: Message)
    ensures Run(ExampleConfig(m), ExampleSession(m, 2), ["DELE 1", "PASS q", "RSET"])
         == [Step(ExampleSession(m, 2), ["DELE 1"], Plain([Marked], ExampleSession(m, 3))),
             Step(ExampleSession(m, 3), ["PASS q"], Turn(1, [PassBad], ExampleSession(m, 4), false, Some(false))),
             Step(ExampleSession(m, 4), ["RSET"], Plain([ResetOk], ExampleSession(m, 5)))]
  {
    hide Run, Trim, Upper, VerbOf, CommandTurn, ExampleSession, ExampleConfig;
    var last3, last2, last1 := ["DELE 1", "PASS q", "RSET"], ["PASS q", "RSET"], ["RSET"];
    ExampleArguments(m);
    ExampleVerbs();
    LoginTurns(m, last1);
    MarkTurns(m, last2);
    MarkTurns(m, []);
    StepAtCommand(m, ExampleSession(m, 2), last3, last2, "DELE", "1", Plain([Marked], ExampleSession(m, 3)));
    StepAtCommand(m, ExampleSession(m, 3), last2, last1, "PASS", "q", Turn(1, [PassBad], ExampleSession(m, 4), false, Some(false)));
    StepAtCommand(m, ExampleSession(m, 4), last1, [], "RSET", "", Plain([ResetOk], ExampleSession(m, 5)));
    NoLines(ExampleConfig(m), ExampleSession(m, 5));
  }

  /** A session where it happens: after a DELE a failed login leaves the mark, and RSET clears it all the same. */
  lemma ResetWithoutLoginIsReached(m: Message)
    ensures var steps := Run(ExampleConfig(m), NewSession(ExampleConfig(m)), ["USER u", "PASS p", "DELE 1", "PASS q", "RSET"]);
            && |steps| == 5
            && steps[2].turn.replies == [Marked] && steps[3].turn.replies == [PassBad]
            && !steps[4].before.authed && Marks(steps[4].before.deleted)
            && steps[4].turn.replies == [ResetOk] && !Marks(steps[4].turn.after.deleted)
  {
    hide Run, Trim, Upper, VerbOf, CommandTurn, ExampleSession, ExampleConfig, Marks;
    var last3 := ["DELE 1", "PASS q", "RSET"];
    var lines, last4 := ["USER u", "PASS p"] + last3, ["PASS p"] + last3;
    ExampleArguments(m);
    ExampleVerbs();
    LoginTurns(m, last4);
    LoginTurns(m, last3);
    StepAtCommand(m, ExampleSession(m, 0), lines, last4, "USER", "u", Plain([UserOk], ExampleSession(m, 1)));
    StepAtCommand(m, ExampleSession(m, 1), last4, last3, "PASS", "p", Turn(1, [PassOk], ExampleSession(m, 2), false, Some(true)));
    MarkThenReset(m);
    assert lines == ["USER u", "PASS p", "DELE 1", "PASS q", "RSET"];
  }

  lemma NoLines(config: Config, s: Session)
    ensures Run(config, s, []) == []
  {
  }

  predicate IsMailboxReply(reply: Reply) {
    reply.Retrieved? || reply.Stat? || reply.Scan? || reply.ScanListing? || reply.Uid? || reply.UniqueListing? || reply.Marked?
  }

  /** What a turn does to the authentication and the marks, and what it may show. */
  predicate Explained(config: Config, s: Session, turn: Turn) {
    && (turn.check.Some? ==> turn.after.authed == turn.check.value)
    && (turn.check.None? ==> turn.after.authed == s.authed)
    && |turn.after.deleted| == |s.deleted|
    && (forall i :: 0 <= i < |turn.replies| && IsMailboxReply(turn.replies[i]) ==> s.authed)
  }

  lemma AuthIsExplained(config: Config, s: Session, args: string, rest: seq<string>)
    ensures Explained(config, s, AuthTurn(config, s, args, rest))
  {
    hide Words, Check, Upper;
  }

  lemma MailboxIsExplained(config: Config, s: Session, verb: Verb, args: string)
    ensures Explained(config, s, MailboxTurn(config, s, verb, args))
  {
    hide ParseIndex, Listing, UidListing, View, SizeOf, Rfc822, UidOf, TotalSize, IsDeleted;
  }

  lemma TurnIsExplained(config: Config, s: Session, lines: seq<string>)
    requires lines != []
    ensures Explained(config, s, TurnOf(config, s, lines))
  {
    hide Trim, SplitCommand, Upper, VerbOf, AuthTurn, MailboxTurn;
    var (command, args) := SplitCommand(lines[0], config.blank);
    AuthIsExplained(config, s, args, lines[1..]);
    MailboxIsExplained(config, s, VerbOf(Upper(command)), args);
  }

  /** The last credential check before step `k` succeeded. */
  ghost predicate CheckedBefore(steps: seq<Step>, k: nat)
    requires k <= |steps|
  {
    exists h :: 0 <= h < k && steps[h].turn.check == Some(true) && NoCheck(steps, h + 1, k)
  }

  predicate NoCheck(steps: seq<Step>, from: nat, to: nat)
    requires to <= |steps|
  {
    forall i :: from <= i < to ==> steps[i].turn.check.None?
  }

  lemma CheckCarries(first: Step, rest: seq<Step>, k: nat)
    requires k <= |rest|
    ensures CheckedBefore(rest, k) ==> CheckedBefore([first] + rest, k + 1)
    ensures NoCheck(rest, 0, k) && first.turn.check == Some(true) ==> CheckedBefore([first] + rest, k + 1)
  {
    var steps := [first] + rest;
    if CheckedBefore(rest, k) {
      var h :| 0 <= h < k && rest[h].turn.check == Some(true) && NoCheck(rest, h + 1, k);
      assert steps[h + 1].turn.check == Some(true);
      forall i | h + 2 <= i < k + 1
        ensures steps[i].turn.check.None?
      {
        assert steps[i] == rest[i - 1];
      }
      assert NoCheck(steps, h + 2, k + 1);
    }
    if NoCheck(rest, 0, k) && first.turn.check == Some(true) {
      assert steps[0] == first;
      forall i | 1 <= i < k + 1
        ensures steps[i].turn.check.None?
      {
        assert steps[i] == rest[i - 1];
      }
      assert NoCheck(steps, 1, k + 1);
    }
  }

  lemma NoCheckYet(steps: seq<Step>)
    ensures NoCheck(steps, 0, 0)
  {
  }

  lemma NoCheckCarries(first: Step, rest: seq<Step>, k: nat)
    requires k <= |rest| && NoCheck(rest, 0, k) && first.turn.check.None?
    ensures NoCheck([first] + rest, 0, k + 1)
  {
    var steps := [first] + rest;
    forall i | 0 <= i < k + 1
      ensures steps[i].turn.check.None?
    {
      assert i > 0 ==> steps[i] == rest[i - 1];
    }
  }

  /** Who is authenticated before step `k` was so from the start, or passed the last check made. */
  lemma {:induction false} AuthenticationIsEarned(config: Config, s: Session, lines: seq<string>, k: nat)
    requires k < |Run(config, s, lines)|
    ensures var steps := Run(config, s, lines);
            && |steps[k].before.deleted| == |s.deleted|
            && Explained(config, steps[k].before, steps[k].turn)
            && (steps[k].before.authed ==> CheckedBefore(steps, k) || (s.authed && NoCheck(steps, 0, k)))
    decreases |lines|
  {
    hide TurnOf, Explained, CheckedBefore, NoCheck;
    var turn := TurnOf(config, s, lines);
    TurnIsExplained(config, s, lines);
    if k == 0 {
      NoCheckYet(Run(config, s, lines));
    } else {
      var rest := Run(config, turn.after, lines[turn.used..]);
      var first := Step(s, lines[..turn.used], turn);
      assert Run(config, s, lines) == [first] + rest;
      AuthenticationIsEarned(config, turn.after, lines[turn.used..], k - 1);
      CheckCarries(first, rest, k - 1);
      FirstStep(config, s, turn);
      if NoCheck(rest, 0, k - 1) && turn.check.None? {
        NoCheckCarries(first, rest, k - 1);
      }
    }
  }

  lemma FirstStep(config: Config, s: Session, turn: Turn)
    requires Explained(config, s, turn)
    ensures |turn.after.deleted| == |s.deleted|
    ensures turn.after.authed ==> turn.check == Some(true) || (turn.check.None? && s.authed)
  {
  }

  /** On every session that requires authentication nothing of the mailbox is shown or marked before a credential match. */
  lemma MailboxIsGated(config: Config, lines: seq<string>, k: nat, i: nat)
    requires config.requireAuth && k < |Run(config, NewSession(config), lines)|
    requires i < |Run(config, NewSession(config), lines)[k].turn.replies|
    requires IsMailboxReply(Run(config, NewSession(config), lines)[k].turn.replies[i])
    ensures CheckedBefore(Run(config, NewSession(config), lines), k)
  {
    hide Run, CheckedBefore, NoCheck;
    AuthenticationIsEarned(config, NewSession(config), lines, k);
  }

  // ---------------------------------------------------------------------------
  // The connection
  // ---------------------------------------------------------------------------

  lemma RunStep(config: Config, s: Session, lines: seq<string>)
    requires lines != []
    ensures var turn := TurnOf(config, s, lines);
            RepliesOf(Run(config, s, lines))
            == turn.replies + (if turn.quit then [] else RepliesOf(Run(config, turn.after, lines[turn.used..])))
  {
    hide TurnOf;
    var turn := TurnOf(config, s, lines);
    var step, rest := Step(s, lines[..turn.used], turn), Run(config, turn.after, lines[turn.used..]);
    assert ([step] + rest)[1..] == rest;
  }

  lemma EmptyRun(config: Config, s: Session)
    ensures RepliesOf(Run(config, s, [])) == []
  {
  }

  /** A client connection; `deleted` is the fixed-size vector of marks. */
  class Connection {
    var input: seq<string>
    var output: seq<Reply>
    var username: Option<string>
    var authed: bool
    const deleted: array<nat>

    function Current(): Session
      reads this, deleted
    {
      Session(username, authed, deleted[..])
    }

    constructor (config: Config, input: seq<string>)
      ensures this.input == input && output == [] && Current() == NewSession(config) && fresh(deleted)
    {
      this.input, output := input, [];
      username, authed := None, !config.requireAuth;
      deleted := new nat[|config.messages|](i => 0);
      new;
      assert deleted[..] == Unmarked(|config.messages|);
    }

    method ReadLine() returns (line: Option<string>)
      modifies this`input
      ensures line == if old(input) == [] then None else Some(old(input)[0])
      ensures input == if old(input) == [] then [] else old(input)[1..]
    {
      if input == [] {
        return None;
      }
      line := Some(input[0]);
      input := input[1..];
    }

    method Write(reply: Reply)
      modifies this`output
      ensures output == old(output) + [reply]
    {
      output := output + [reply];
    }

    method HandleAuth(config: Config, args: string)
      modifies this`input, this`output, this`authed
      ensures var turn := AuthTurn(config, old(Current()), args, old(input));
              output == old(output) + turn.replies && Current() == turn.after && input == old(input)[turn.used - 1..]
    {
      hide Upper, Words;
      var words := Words(args, config.blank);
      var mechanism, initial := Upper(WordOr(words, 0)), WordOr(words, 1);
      if mechanism == "PLAIN" {
        var value := Some(initial);
        if initial == "" {
          Write(Continue);
          value := ReadLine();
        }
        var check := Check(config, value);
        if check.Some? {
          authed := check.value;
        }
      }
      Write(if authed then AuthOk else AuthBad);
    }

    /** Counts the visible messages and adds up their sizes. */
    method Statistics(config: Config) returns (count: nat, size: nat)
      ensures count == |View(config, Current())| && size == TotalSize(config.messages, View(config, Current()))
    {
      hide SizeOf, TotalSize, Visible;
      count, size := 0, 0;
      NothingVisible(config.messages, deleted[..]);
      for i := 0 to |config.messages|
        invariant count == |Visible(deleted[..], i)| && size == TotalSize(config.messages, Visible(deleted[..], i))
      {
        NextVisible(config.messages, deleted[..], i);
        if !IsDeleted(deleted[..], i) {
          count, size := count + 1, size + SizeOf(config.messages[i]);
        }
      }
    }

    /** The listing of the visible messages, one by one. */
    method ScanMessages(config: Config) returns (entries: seq<(nat, nat)>)
      ensures entries == Listing(config.messages, View(config, Current()))
    {
      hide SizeOf, Visible;
      entries := [];
      NothingVisible(config.messages, deleted[..]);
      for i := 0 to |config.messages|
        invariant entries == Listing(config.messages, Visible(deleted[..], i))
      {
        NextVisible(config.messages, deleted[..], i);
        if !IsDeleted(deleted[..], i) {
          ListingAppend(config.messages, Visible(deleted[..], i), i);
          entries := entries + [(i + 1, SizeOf(config.messages[i]))];
        }
      }
    }

    method ListUids(config: Config) returns (entries: seq<(nat, Text)>)
      ensures entries == UidListing(config.messages, View(config, Current()))
    {
      hide UidOf, Visible;
      entries := [];
      NothingVisible(config.messages, deleted[..]);
      for i := 0 to |config.messages|
        invariant entries == UidListing(config.messages, Visible(deleted[..], i))
      {
        NextVisible(config.messages, deleted[..], i);
        if !IsDeleted(deleted[..], i) {
          UidListingAppend(config.messages, Visible(deleted[..], i), i);
          entries := entries + [(i + 1, UidOf(config.messages[i]))];
        }
      }
    }

    method HandleMailbox(config: Config, verb: Verb, args: string)
      requires verb.StatV? || verb.ListV? || verb.Uidl? || verb.Retr? || verb.Dele?
      modifies this`output, deleted
      ensures var turn := MailboxTurn(config, old(Current()), verb, args);
              output == old(output) + turn.replies && Current() == turn.after && turn.used == 1 && !turn.quit
    {
      hide Visible, Listing, UidListing, TotalSize, Rfc822, UidOf, ParseIndex;
      if !authed {
        Write(NeedAuth);
        return;
      }
      var index := ParseIndex(args, config.blank);
      match verb {
        case StatV =>
          var count, size := Statistics(config);
          Write(Stat(count, size));
        case ListV =>
          if index.Some? {
            if index.value < |config.messages| && !IsDeleted(deleted[..], index.value) {
              Write(Scan(index.value + 1, SizeOf(config.messages[index.value])));
            } else {
              Write(NoSuchMessage);
            }
          } else {
            var entries := ScanMessages(config);
            Write(ScanListing(entries));
          }
        case Uidl =>
          if index.Some? {
            if index.value < |config.messages| && !IsDeleted(deleted[..], index.value) {
              Write(Uid(index.value + 1, UidOf(config.messages[index.value])));
            } else {
              Write(NoSuchMessage);
            }
          } else {
            var entries := ListUids(config);
            Write(UniqueListing(entries));
          }
        case Retr =>
          if index.None? {
            Write(NumberRequired);
          } else if index.value < |config.messages| && !IsDeleted(deleted[..], index.value) {
            var content := Rfc822(config.messages[index.value]);
            Write(Retrieved(|content|, content));
          } else {
            Write(NoSuchMessage);
          }
        case Dele =>
          if index.None? {
            Write(NumberRequired);
          } else if index.value < deleted.Length {
            deleted[index.value] := 1;
            Write(Marked);
          } else {
            Write(NoSuchMessage);
          }
      }
    }

    /** Clears every mark. */
    method ClearMarks()
      modifies deleted
      ensures deleted[..] == Unmarked(deleted.Length)
    {
      for i := 0 to deleted.Length
        invariant forall k :: 0 <= k < i ==> deleted[k] == 0
      {
        deleted[i] := 0;
      }
    }

    /** One turn of the loop. */
    method HandleLine(config: Config) returns (quit: bool)
      requires input != []
      modifies this, deleted
      ensures var turn := TurnOf(config, old(Current()), old(input));
              output == old(output) + turn.replies && Current() == turn.after
              && input == old(input)[turn.used..] && quit == turn.quit
    {
      hide Trim, SplitCommand, Upper, VerbOf, AuthTurn, MailboxTurn;
      quit := false;
      var line := input[0];
      input := input[1..];
      if Trim(line, config.blank) == "" {
        assert output + [] == output;
        return;
      }
      var (command, args) := SplitCommand(line, config.blank);
      var upper := Upper(command);
      var custom := config.custom(upper, line);
      if custom.Some? {
        Write(Custom(custom.value));
        return;
      }
      var verb := VerbOf(upper);
      match verb {
        case Capa => Write(Capabilities);
        case User =>
          username := Some(args);
          Write(UserOk);
        case Pass =>
          authed := CredentialsMatch(config.credentials, TextOr(username), args);
          Write(if authed then PassOk else PassBad);
        case Auth =>
          AuthUses(config, Current(), args, input);
          HandleAuth(config, args);
        case Rset =>
          ClearMarks();
          Write(ResetOk);
        case Noop => Write(NoopOk);
        case Quit =>
          Write(Bye);
          quit := true;
        case Other => Write(Unknown);
        case _ => HandleMailbox(config, verb, args);
      }
    }

    method HandleConnection(config: Config)
      modifies this, deleted
      ensures output == old(output) + [Banner] + RepliesOf(Run(config, old(Current()), old(input)))
    {
      hide Run, RepliesOf, TurnOf;
      ghost var begun, lines := Current(), input;
      Write(Banner);
      ghost var sent := output;
      ghost var done: seq<Reply> := [];
      assert sent + [] == sent;
      while input != []
        invariant output == sent + done
        invariant RepliesOf(Run(config, begun, lines)) == done + RepliesOf(Run(config, Current(), input))
        decreases |input|
      {
        RunStep(config, Current(), input);
        ghost var turn := TurnOf(config, Current(), input);
        var quit := HandleLine(config);
        Associative(sent, done, turn.replies);
        done := done + turn.replies;
        if quit {
          assert done + [] == done;
          return;
        }
      }
      EmptyRun(config, Current());
      assert done + [] == done;
    }
  }

  lemma AuthUses(config: Config, s: Session, args: string, rest: seq<string>)
    ensures var turn := AuthTurn(config, s, args, rest);
            1 <= turn.used <= 1 + |rest| && !turn.quit
  {
    hide Words, Upper, Check;
  }

  lemma NothingVisible(messages: seq<Message>, deleted: seq<nat>)
    ensures Visible(deleted, 0) == [] && TotalSize(messages, []) == 0
    ensures Listing(messages, []) == [] && UidListing(messages, []) == []
  {
  }

  lemma NextVisible(messages: seq<Message>, deleted: seq<nat>, i: nat)
    requires i < |messages|
    ensures Visible(deleted, i + 1) == if IsDeleted(deleted, i) then Visible(deleted, i) else Visible(deleted, i) + [i]
    ensures TotalSize(messages, Visible(deleted, i) + [i]) == TotalSize(messages, Visible(deleted, i)) + SizeOf(messages[i])
  {
    hide SizeOf;
    TotalAppend(messages, Visible(deleted, i), i);
  }

  lemma ListingAppend(messages: seq<Message>, indices: seq<nat>, i: nat)
    requires InRange(indices, messages) && i < |messages|
    ensures InRange(indices + [i], messages)
    ensures Listing(messages, indices + [i]) == Listing(messages, indices) + [(i + 1, SizeOf(messages[i]))]
  {
    hide SizeOf;
  }

  lemma UidListingAppend(messages: seq<Message>, indices: seq<nat>, i: nat)
    requires InRange(indices, messages) && i < |messages|
    ensures InRange(indices + [i], messages)
    ensures UidListing(messages, indices + [i]) == UidListing(messages, indices) + [(i + 1, UidOf(messages[i]))]
  {
    hide UidOf;
  }
}
