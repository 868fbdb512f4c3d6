/**
 The SMTP session. A session is a list of turns: a command line, the answer lines it asks for (AUTH) or the message
 body it announces (DATA), and the replies. Base64 decoding, white space and custom responses are given.
 */
module Smtp {
  import opened Wrappers
  import opened Sequences
  import opened MailText

  datatype Config = Config(
    requireAuth: bool, credentials: seq<(string, string)>, acceptedRecipients: seq<string>,
    custom: (string, string) -> Option<string>, blank: Table,
    decodePlain: string -> Option<(string, string)>, decodeText: string -> Option<string>, byteLength: string -> nat)

  datatype Reply =
    | Banner | Greeting | Capabilities
    | AskPlain | AskUser | AskPassword | AuthOk | AuthFailed | AuthRequired
    | SenderOk | SenderSyntax | NeedMail | RecipientOk | UserUnknown
    | NeedRcpt | StartData | Accepted(bytes: nat)
    | ResetDone | CannotVerify | NoopOk | Bye | Unrecognized
    | Custom(text: string)

  /** The reply code on the wire; a custom response has whatever its text says. */
  function Code(reply: Reply): nat {
    match reply
    case Banner => 220
    case Greeting => 250
    case Capabilities => 250
    case AskPlain => 334
    case AskUser => 334
    case AskPassword => 334
    case AuthOk => 235
    case AuthFailed => 535
    case AuthRequired => 530
    case SenderOk => 250
    case SenderSyntax => 501
    case NeedMail => 503
    case RecipientOk => 250
    case UserUnknown => 550
    case NeedRcpt => 503
    case StartData => 354
    case Accepted(_) => 250
    case ResetDone => 250
    case CannotVerify => 252
    case NoopOk => 250
    case Bye => 221
    case Unrecognized => 500
    case Custom(_) => 0
  }

  datatype Session = Session(authed: bool, mailFrom: Option<string>, rcptTo: seq<string>)

  function NewSession(config: Config): Session {
    Session(!config.requireAuth, None, [])
  }

  function Reset(s: Session): Session {
    s.(mailFrom := None, rcptTo := [])
  }

  datatype Verb = Ehlo | Helo | Auth | Mail | Rcpt | Data | Rset | Verify | Noop | Quit | Other

  function VerbOf(upper: string): Verb {
    if upper == "EHLO" then Ehlo
    else if upper == "HELO" then Helo
    else if upper == "AUTH" then Auth
    else if upper == "MAIL" then Mail
    else if upper == "RCPT" then Rcpt
    else if upper == "DATA" then Data
    else if upper == "RSET" then Rset
    else if upper == "VRFY" || upper == "EXPN" then Verify
    else if upper == "NOOP" then Noop
    else if upper == "QUIT" then Quit
    else Other
  }

  // ---------------------------------------------------------------------------
  // One turn
  // ---------------------------------------------------------------------------

  /** `used` counts the lines a turn takes from the input, its own first. */
  datatype Turn = Turn(used: nat, replies: seq<Reply>, after: Session, quit: bool)

  function LineOr(lines: seq<string>, k: nat): string {
    if k < |lines| then lines[k] else ""
  }

  function Least(a: nat, b: nat): nat {
    if a < b then a else b
  }

  predicate PlainOk(config: Config, value: string) {
    var pair := config.decodePlain(value);
    pair.Some? && CredentialsMatch(config.credentials, pair.value.0, pair.value.1)
  }

  predicate LoginOk(config: Config, user: string, password: string) {
    CredentialsMatch(config.credentials, TextOr(config.decodeText(user)), TextOr(config.decodeText(password)))
  }

  /** What an AUTH command comes to: the lines it takes after its own, what it asks, and whether it succeeds. */
  datatype Attempt = Attempt(taken: nat, asked: seq<Reply>, ok: bool)

  function PlainAttempt(config: Config, initial: string, rest: seq<string>): Attempt {
    if initial == "" then Attempt(Least(1, |rest|), [AskPlain], PlainOk(config, LineOr(rest, 0)))
    else Attempt(0, [], PlainOk(config, initial))
  }

  function LoginAttempt(config: Config, initial: string, rest: seq<string>): Attempt {
    if initial == "" then
      if rest == [] then Attempt(0, [AskUser], false)
      else Attempt(Least(2, |rest|), [AskUser, AskPassword], |rest| >= 2 && LoginOk(config, rest[0], rest[1]))
    else Attempt(Least(1, |rest|), [AskPassword], rest != [] && LoginOk(config, initial, rest[0]))
  }

  function AuthAttempt(config: Config, args: string, rest: seq<string>): (a: Attempt)
    ensures a.taken <= |rest|
    ensures forall reply :: reply in a.asked ==> reply.AskPlain? || reply.AskUser? || reply.AskPassword?
  {
    var words := Words(args, config.blank);
    var mechanism, initial := Upper(WordOr(words, 0)), WordOr(words, 1);
    if mechanism == "PLAIN" then PlainAttempt(config, initial, rest)
    else if mechanism == "LOGIN" then LoginAttempt(config, initial, rest)
    else Attempt(0, [], false)
  }

  function AuthTurn(config: Config, s: Session, args: string, rest: seq<string>): Turn {
    var a := AuthAttempt(config, args, rest);
    Turn(1 + a.taken, a.asked + [if a.ok then AuthOk else AuthFailed], s.(authed := a.ok), false)
  }

  predicate IsSender(args: string) {
    "FROM:" <= Upper(args)
  }

  predicate IsAllowed(config: Config, args: string) {
    config.acceptedRecipients == []
    || exists item :: item in config.acceptedRecipients && Contains(Lower(args), Lower(item))
  }

  function MailTurn(config: Config, s: Session, args: string): Turn {
    if config.requireAuth && !s.authed then Turn(1, [AuthRequired], s, false)
    else if IsSender(args) then Turn(1, [SenderOk], s.(mailFrom := Some(args)), false)
    else Turn(1, [SenderSyntax], s, false)
  }

  function RcptTurn(config: Config, s: Session, args: string): Turn {
    if s.mailFrom.None? then Turn(1, [NeedMail], s, false)
    else if IsAllowed(config, args) then Turn(1, [RecipientOk], s.(rcptTo := s.rcptTo + [args]), false)
    else Turn(1, [UserUnknown], s, false)
  }

  /** The lines before the first lone dot; all of them when there is none. */
  function Body(rest: seq<string>): (body: seq<string>)
    ensures |body| <= |rest| && body == rest[..|body|]
    ensures |body| < |rest| ==> rest[|body|] == "."
    ensures forall i :: 0 <= i < |body| ==> body[i] != "."
  {
    if rest == [] || rest[0] == "." then []
    else
      var tail := Body(rest[1..]);
      assert rest[..|tail| + 1] == [rest[0]] + rest[1..][..|tail|];
      [rest[0]] + tail
  }

  /** Bytes of a body, its line ends not counted. */
  function Size(body: seq<string>, byteLength: string -> nat): nat {
    if body == [] then 0 else Size(body[..|body| - 1], byteLength) + byteLength(body[|body| - 1])
  }

  function DataTurn(config: Config, s: Session, rest: seq<string>): Turn {
    if s.rcptTo == [] then Turn(1, [NeedRcpt], s, false)
    else
      var body := Body(rest);
      Turn(1 + Least(|body| + 1, |rest|), [StartData, Accepted(Size(body, config.byteLength))], Reset(s), false)
  }

  function CommandTurn(config: Config, s: Session, verb: Verb, args: string, rest: seq<string>): Turn {
    match verb
    case Ehlo => Turn(1, [Capabilities], s, false)
    case Helo => Turn(1, [Greeting], s, false)
    case Auth => AuthTurn(config, s, args, rest)
    case Mail => MailTurn(config, s, args)
    case Rcpt => RcptTurn(config, s, args)
    case Data => DataTurn(config, s, rest)
    case Rset => Turn(1, [ResetDone], Reset(s), false)
    case Verify => Turn(1, [CannotVerify], s, false)
    case Noop => Turn(1, [NoopOk], s, false)
    case Quit => Turn(1, [Bye], s, true)
    case Other => Turn(1, [Unrecognized], s, false)
  }

  function TurnOf(config: Config, s: Session, lines: seq<string>): (turn: Turn)
    requires lines != []
    ensures 1 <= turn.used <= |lines|
  {
    var line := lines[0];
    if Trim(line, config.blank) == "" then Turn(1, [], s, false)
    else
      var (command, args) := SplitCommand(line, config.blank);
      var custom := config.custom(Upper(command), line);
      if custom.Some? then Turn(1, [Custom(custom.value)], s, false)
      else CommandTurn(config, s, VerbOf(Upper(command)), args, lines[1..])
  }

  // ---------------------------------------------------------------------------
  // Whole sessions
  // ---------------------------------------------------------------------------

  /** A turn in its place: the session before it, and the lines it took. */
  datatype Step = Step(before: Session, lines: seq<string>, turn: Turn)

  function Run(config: Config, s: Session, lines: seq<string>): seq<Step>
    decreases |lines|
  {
    if lines == [] then []
    else
      var turn := TurnOf(config, s, lines);
      var step := Step(s, lines[..turn.used], turn);
      if turn.quit then [step] else [step] + Run(config, turn.after, lines[turn.used..])
  }

  function RepliesOf(steps: seq<Step>): seq<Reply> {
    if steps == [] then [] else steps[0].turn.replies + RepliesOf(steps[1..])
  }

  function LinesOf(steps: seq<Step>): seq<string> {
    if steps == [] then [] else steps[0].lines + LinesOf(steps[1..])
  }

  function SessionAfter(config: Config, s: Session, lines: seq<string>): Session
    decreases |lines|
  {
    if lines == [] then s
    else
      var turn := TurnOf(config, s, lines);
      if turn.quit then turn.after else SessionAfter(config, turn.after, lines[turn.used..])
  }

  /** Every line up to and including QUIT is taken by exactly one turn, in order. */
  lemma {:induction false} EveryLineIsTakenOnce(config: Config, s: Session, lines: seq<string>)
    ensures LinesOf(Run(config, s, lines)) <= lines
    ensures LinesOf(Run(config, s, lines)) == lines
         || (Run(config, s, lines) != [] && Run(config, s, lines)[|Run(config, s, lines)| - 1].turn.quit)
    decreases |lines|
  {
    hide TurnOf;
    if lines != [] {
      var turn := TurnOf(config, s, lines);
      if !turn.quit {
        EveryLineIsTakenOnce(config, turn.after, lines[turn.used..]);
        assert lines == lines[..turn.used] + lines[turn.used..];
      }
    }
  }

  /** The steps of a session, as a chain. */
  ghost predicate IsTrace(config: Config, s: Session, steps: seq<Step>) {
    && (steps != [] ==> steps[0].before == s)
    && (forall k :: 0 <= k < |steps| ==> IsStep(config, steps[k]))
    && (forall k :: 0 < k < |steps| ==> steps[k].before == steps[k - 1].turn.after)
  }

  ghost predicate IsStep(config: Config, step: Step) {
    exists lines :: lines != [] && step.turn == TurnOf(config, step.before, lines)
                    && step.lines == lines[..TurnOf(config, step.before, lines).used]
  }

  lemma {:induction false} RunIsTrace(config: Config, s: Session, lines: seq<string>)
    ensures IsTrace(config, s, Run(config, s, lines))
    decreases |lines|
  {
    hide TurnOf;
    if lines != [] {
      var turn := TurnOf(config, s, lines);
      assert IsStep(config, Step(s, lines[..turn.used], turn));
      if !turn.quit {
        RunIsTrace(config, turn.after, lines[turn.used..]);
      }
    }
  }

  predicate Says(step: Step, reply: Reply) {
    reply in step.turn.replies
  }

  predicate Resets(step: Step) {
    Says(step, ResetDone) || Says(step, StartData)
  }

  // ---------------------------------------------------------------------------
  // What a turn can do
  // ---------------------------------------------------------------------------

  /** Where each part of the session after a turn comes from. */
  predicate Explained(config: Config, step: Step) {
    var s, after := step.before, step.turn.after;
    && (after.authed ==> (s.authed && !Says(step, AuthFailed)) || Says(step, AuthOk))
    && (Says(step, AuthFailed) ==> !after.authed)
    && (Says(step, SenderOk) ==> (config.requireAuth ==> s.authed) && after.mailFrom.Some? && !Resets(step))
    && (after.mailFrom.Some? ==> (s.mailFrom.Some? && !Resets(step)) || Says(step, SenderOk))
    && (s.mailFrom.Some? && !Resets(step) ==> after.mailFrom.Some?)
    && (Says(step, RecipientOk) ==> s.mailFrom.Some? && !Resets(step))
    && (after.rcptTo != [] ==> !Resets(step) && (s.rcptTo != [] || Says(step, RecipientOk)))
    && (Says(step, StartData) ==> s.rcptTo != [] && after.rcptTo == [] && after.mailFrom.None?)
  }

  lemma AuthTurnIsExplained(config: Config, s: Session, args: string, rest: seq<string>, lines: seq<string>)
    ensures Explained(config, Step(s, lines, AuthTurn(config, s, args, rest)))
  {
    hide AuthAttempt;
    var turn := AuthTurn(config, s, args, rest);
    var a := AuthAttempt(config, args, rest);
    forall reply | reply in turn.replies
      ensures reply.AskPlain? || reply.AskUser? || reply.AskPassword? || reply == if a.ok then AuthOk else AuthFailed
    {
    }
    assert turn.replies[|turn.replies| - 1] == if a.ok then AuthOk else AuthFailed;
  }

  lemma CommandIsExplained(config: Config, s: Session, verb: Verb, args: string, rest: seq<string>, lines: seq<string>)
    ensures Explained(config, Step(s, lines, CommandTurn(config, s, verb, args, rest)))
  {
    hide AuthTurn, IsAllowed, IsSender, Body, Size;
    if verb == Auth {
      AuthTurnIsExplained(config, s, args, rest, lines);
    }
  }

  lemma StepIsExplained(config: Config, step: Step)
    requires IsStep(config, step)
    ensures Explained(config, step)
  {
    hide CommandTurn, Trim, SplitCommand, Upper, VerbOf;
    var lines :| lines != [] && step.turn == TurnOf(config, step.before, lines)
                 && step.lines == lines[..TurnOf(config, step.before, lines).used];
    var (command, args) := SplitCommand(lines[0], config.blank);
    CommandIsExplained(config, step.before, VerbOf(Upper(command)), args, lines[1..], step.lines);
  }

  function Decoded(config: Config, value: string): string {
    var text := config.decodeText(value);
    if text.Some? then text.value else ""
  }

  /** The pair an AUTH command brings, of PLAIN or LOGIN, in its line and in those it asks for, is a configured one. */
  predicate AuthSucceeds(config: Config, args: string, rest: seq<string>) {
    var words := Words(args, config.blank);
    if |words| == 0 then false
    else
      var given := |words| > 1 && words[1] != "";
      if Upper(words[0]) == "PLAIN" then
        var pair := config.decodePlain(if given then words[1] else if rest != [] then rest[0] else "");
        pair.Some? && pair.value in config.credentials
      else if Upper(words[0]) == "LOGIN" then
        if given then rest != [] && (Decoded(config, words[1]), Decoded(config, rest[0])) in config.credentials
        else |rest| >= 2 && (Decoded(config, rest[0]), Decoded(config, rest[1])) in config.credentials
      else false
  }

  predicate SenderAccepted(config: Config, s: Session, word: string, args: string) {
    word == "MAIL" && (config.requireAuth ==> s.authed) && "FROM:" <= Upper(args)
  }

  /** A recipient is accepted when the list is empty or one of its items occurs in the argument, in any case. */
  predicate RecipientAccepted(config: Config, s: Session, word: string, args: string) {
    && word == "RCPT" && s.mailFrom.Some?
    && (config.acceptedRecipients == []
        || exists item, i :: item in config.acceptedRecipients && 0 <= i <= |args| && StartsAt(Lower(args), i, Lower(item)))
  }

  predicate BodyAsked(s: Session, word: string) {
    word == "DATA" && s.rcptTo != []
  }

  /** What a command answers and does to the session. */
  predicate AnswersAs(config: Config, s: Session, word: string, args: string, rest: seq<string>, turn: Turn) {
    && (AuthOk in turn.replies <==> word == "AUTH" && AuthSucceeds(config, args, rest))
    && (AuthFailed in turn.replies <==> word == "AUTH" && !AuthSucceeds(config, args, rest))
    && turn.after.authed == (if word == "AUTH" then AuthSucceeds(config, args, rest) else s.authed)
    && (SenderOk in turn.replies <==> SenderAccepted(config, s, word, args))
    && (RecipientOk in turn.replies <==> RecipientAccepted(config, s, word, args))
    && (StartData in turn.replies <==> BodyAsked(s, word))
    && (ResetDone in turn.replies <==> word == "RSET")
    && turn.after.mailFrom == (if SenderAccepted(config, s, word, args) then Some(args)
                               else if word == "RSET" || BodyAsked(s, word) then None else s.mailFrom)
    && turn.after.rcptTo == (if RecipientAccepted(config, s, word, args) then s.rcptTo + [args]
                             else if word == "RSET" || BodyAsked(s, word) then [] else s.rcptTo)
    && (turn.quit <==> word == "QUIT")
  }

  lemma AuthAnswers(config: Config, s: Session, args: string, rest: seq<string>)
    ensures AnswersAs(config, s, "AUTH", args, rest, AuthTurn(config, s, args, rest))
  {
    hide AuthAttempt, AuthSucceeds;
    AttemptSucceeds(config, args, rest);
    var turn, a := AuthTurn(config, s, args, rest), AuthAttempt(config, args, rest);
    assert turn.replies[|turn.replies| - 1] == if a.ok then AuthOk else AuthFailed;
  }

  lemma AttemptSucceeds(config: Config, args: string, rest: seq<string>)
    ensures AuthAttempt(config, args, rest).ok <==> AuthSucceeds(config, args, rest)
  {
    hide Words, Upper;
  }

  lemma AllowedExactly(config: Config, args: string)
    ensures IsAllowed(config, args) <==>
            (config.acceptedRecipients == []
             || exists item, i :: item in config.acceptedRecipients && 0 <= i <= |args| && StartsAt(Lower(args), i, Lower(item)))
  {
    hide StartsAt, Lower;
    if IsAllowed(config, args) && config.acceptedRecipients != [] {
      var item :| item in config.acceptedRecipients && Contains(Lower(args), Lower(item));
      var i :| 0 <= i <= |Lower(args)| && StartsAt(Lower(args), i, Lower(item));
    }
  }

  lemma VerbsAreWords(word: string)
    ensures VerbOf(word) == Auth <==> word == "AUTH"
    ensures VerbOf(word) == Mail <==> word == "MAIL"
    ensures VerbOf(word) == Rcpt <==> word == "RCPT"
    ensures VerbOf(word) == Data <==> word == "DATA"
    ensures VerbOf(word) == Rset <==> word == "RSET"
    ensures VerbOf(word) == Quit <==> word == "QUIT"
  {
  }

  lemma MailAnswers(config: Config, s: Session, args: string, rest: seq<string>)
    ensures AnswersAs(config, s, "MAIL", args, rest, MailTurn(config, s, args))
  {
    hide AuthSucceeds, Upper, RecipientAccepted;
    assert !RecipientAccepted(config, s, "MAIL", args) by {
      OnlyRcpt(config, s, "MAIL", args);
    }
  }

  lemma OnlyRcpt(config: Config, s: Session, word: string, args: string)
    requires word != "RCPT"
    ensures !RecipientAccepted(config, s, word, args)
  {
    hide StartsAt, Lower;
  }

  lemma RcptAnswers(config: Config, s: Session, args: string, rest: seq<string>)
    ensures AnswersAs(config, s, "RCPT", args, rest, RcptTurn(config, s, args))
  {
    hide AuthSucceeds, Upper, Lower, StartsAt, IsAllowed;
    AllowedExactly(config, args);
  }

  lemma DataAnswers(config: Config, s: Session, args: string, rest: seq<string>)
    ensures AnswersAs(config, s, "DATA", args, rest, DataTurn(config, s, rest))
  {
    hide AuthSucceeds, Upper, RecipientAccepted, Body, Size;
    OnlyRcpt(config, s, "DATA", args);
  }

  lemma CommandAnswers(config: Config, s: Session, word: string, args: string, rest: seq<string>)
    ensures AnswersAs(config, s, word, args, rest, CommandTurn(config, s, VerbOf(word), args, rest))
  {
    hide AuthTurn, MailTurn, RcptTurn, DataTurn, AuthSucceeds, VerbOf, RecipientAccepted, Upper;
    VerbsAreWords(word);
    if word == "AUTH" {
      AuthAnswers(config, s, args, rest);
    } else if word == "MAIL" {
      MailAnswers(config, s, args, rest);
    } else if word == "RCPT" {
      RcptAnswers(config, s, args, rest);
    } else {
      OnlyRcpt(config, s, word, args);
      DataAnswers(config, s, args, rest);
    }
  }

  /**
   What each line is answered with and does to the session: AUTH succeeds exactly with a configured pair, MAIL, RCPT and
   DATA exactly under their conditions, RSET and an accepted body end the transaction, and only QUIT ends the session.
   */
  lemma TurnsAnswerExactly(config: Config, s: Session, lines: seq<string>)
    requires lines != []
    ensures AnswersAs(config, s, CommandWord(lines[0], config.blank, config.custom), SplitCommand(lines[0], config.blank).1, lines[1..],
                      TurnOf(config, s, lines))
  {
    hide Trim, SplitCommand, Upper, Lower, CommandTurn, VerbOf, AuthSucceeds, StartsAt;
    var (command, args) := SplitCommand(lines[0], config.blank);
    CommandAnswers(config, s, Upper(command), args, lines[1..]);
  }

  function Codes(replies: seq<Reply>): (codes: seq<nat>)
    ensures |codes| == |replies|
  {
    seq(|replies|, i requires 0 <= i < |replies| => Code(replies[i]))
  }

  /** How many lines an AUTH command asks for. */
  function Asks(config: Config, args: string, rest: seq<string>): nat {
    var words := Words(args, config.blank);
    if |words| == 0 then 0
    else
      var given := |words| > 1 && words[1] != "";
      if Upper(words[0]) == "PLAIN" then (if given then 0 else 1)
      else if Upper(words[0]) == "LOGIN" then (if given || rest == [] then 1 else 2)
      else 0
  }

  /** The codes on the wire for each command word. */
  function CodesFor(config: Config, s: Session, word: string, args: string, rest: seq<string>): seq<nat> {
    if word == "EHLO" || word == "HELO" || word == "RSET" || word == "NOOP" then [250]
    else if word == "VRFY" || word == "EXPN" then [252]
    else if word == "QUIT" then [221]
    else if word == "MAIL" then
      (if config.requireAuth && !s.authed then [530] else if SenderAccepted(config, s, word, args) then [250] else [501])
    else if word == "RCPT" then
      (if s.mailFrom.None? then [503] else if RecipientAccepted(config, s, word, args) then [250] else [550])
    else if word == "DATA" then (if s.rcptTo == [] then [503] else [354, 250])
    else if word == "AUTH" then
      seq(Asks(config, args, rest), i => 334) + [if AuthSucceeds(config, args, rest) then 235 else 535]
    else [500]
  }

  lemma AuthCodes(config: Config, s: Session, args: string, rest: seq<string>)
    ensures Codes(AuthTurn(config, s, args, rest).replies) == CodesFor(config, s, "AUTH", args, rest)
  {
    hide AuthSucceeds, AuthAttempt;
    AttemptSucceeds(config, args, rest);
    AttemptAsks(config, args, rest);
  }

  lemma AttemptAsks(config: Config, args: string, rest: seq<string>)
    ensures var asked := AuthAttempt(config, args, rest).asked;
            |asked| == Asks(config, args, rest) && forall i :: 0 <= i < |asked| ==> Code(asked[i]) == 334
  {
    hide Words, Upper, PlainOk, LoginOk;
  }

  lemma OtherVerbsAreWords(word: string)
    ensures VerbOf(word) == Ehlo <==> word == "EHLO"
    ensures VerbOf(word) == Helo <==> word == "HELO"
    ensures VerbOf(word) == Verify <==> word == "VRFY" || word == "EXPN"
    ensures VerbOf(word) == Noop <==> word == "NOOP"
  {
  }

  lemma FewCodes(replies: seq<Reply>)
    ensures |replies| == 1 ==> Codes(replies) == [Code(replies[0])]
    ensures |replies| == 2 ==> Codes(replies) == [Code(replies[0]), Code(replies[1])]
  {
  }

  lemma MailCodes(config: Config, s: Session, args: string, rest: seq<string>)
    ensures Codes(MailTurn(config, s, args).replies) == CodesFor(config, s, "MAIL", args, rest)
  {
    hide Codes, Upper;
    FewCodes(MailTurn(config, s, args).replies);
  }

  lemma RcptCodes(config: Config, s: Session, args: string, rest: seq<string>)
    ensures Codes(RcptTurn(config, s, args).replies) == CodesFor(config, s, "RCPT", args, rest)
  {
    hide Codes, IsAllowed, StartsAt, Lower;
    AllowedExactly(config, args);
    FewCodes(RcptTurn(config, s, args).replies);
  }

  lemma DataCodes(config: Config, s: Session, args: string, rest: seq<string>)
    ensures Codes(DataTurn(config, s, rest).replies) == CodesFor(config, s, "DATA", args, rest)
  {
    hide Codes, Body, Size;
    FewCodes(DataTurn(config, s, rest).replies);
  }

  lemma PlainReplies(config: Config, s: Session, verb: Verb, args: string, rest: seq<string>)
    requires !verb.Mail? && !verb.Rcpt? && !verb.Data? && !verb.Auth?
    ensures Codes(CommandTurn(config, s, verb, args, rest).replies)
         == [if verb.Verify? then 252 else if verb.Quit? then 221 else if verb.Other? then 500 else 250]
  {
    hide Codes;
    FewCodes(CommandTurn(config, s, verb, args, rest).replies);
  }

  /** Every command that is not answered by a custom response is answered with these codes, in this order. */
  lemma CommandsHaveTheirCodes(config: Config, s: Session, word: string, args: string, rest: seq<string>)
    ensures Codes(CommandTurn(config, s, VerbOf(word), args, rest).replies) == CodesFor(config, s, word, args, rest)
  {
    hide Codes, AuthTurn, VerbOf, MailTurn, RcptTurn, DataTurn, SenderAccepted, RecipientAccepted, Asks, AuthSucceeds;
    VerbsAreWords(word);
    OtherVerbsAreWords(word);
    if word == "AUTH" {
      AuthCodes(config, s, args, rest);
    } else if word == "MAIL" {
      MailCodes(config, s, args, rest);
    } else if word == "RCPT" {
      RcptCodes(config, s, args, rest);
    } else if word == "DATA" {
      DataCodes(config, s, args, rest);
    } else {
      hide CommandTurn;
      PlainReplies(config, s, VerbOf(word), args, rest);
    }
  }

  /** An AUTH takes the lines it asks for as far as they come; a body is taken up to its dot, and nothing else takes more lines. */
  lemma CommandsTakeTheirLines(config: Config, s: Session, word: string, args: string, rest: seq<string>)
    ensures var used := CommandTurn(config, s, VerbOf(word), args, rest).used;
            if word == "AUTH" then
              used - 1 == (if Asks(config, args, rest) <= |rest| then Asks(config, args, rest) else |rest|)
            else BodyAsked(s, word) || used == 1
  {
    hide Words, Upper, PlainOk, LoginOk, IsSender, IsAllowed, Body, Size;
    VerbsAreWords(word);
  }

  /** A line is answered by nothing when blank, by its custom response when it has one, and else as its command word says. */
  lemma LinesAreAnswered(config: Config, s: Session, lines: seq<string>)
    requires lines != []
    ensures var (command, args) := SplitCommand(lines[0], config.blank);
            var custom, turn := config.custom(Upper(command), lines[0]), TurnOf(config, s, lines);
            if Trim(lines[0], config.blank) == "" then turn.replies == [] && turn.used == 1
            else if custom.Some? then turn.replies == [Custom(custom.value)] && turn.used == 1
            else
              && Codes(turn.replies) == CodesFor(config, s, Upper(command), args, lines[1..])
              && var asks := Asks(config, args, lines[1..]);
                 if Upper(command) == "AUTH" then turn.used == (if asks < |lines| then 1 + asks else |lines|)
                 else BodyAsked(s, Upper(command)) || turn.used == 1
  {
    hide Trim, SplitCommand, Upper, CommandTurn, VerbOf, CodesFor, Codes, Asks;
    var (command, args) := SplitCommand(lines[0], config.blank);
    CommandsTakeTheirLines(config, s, Upper(command), args, lines[1..]);
    CommandsHaveTheirCodes(config, s, Upper(command), args, lines[1..]);
  }

  // ---------------------------------------------------------------------------
  // The gates, over whole runs
  // ---------------------------------------------------------------------------

  function StateAt(s: Session, steps: seq<Step>, k: nat): Session
    requires k <= |steps|
  {
    if k == 0 then s else steps[k - 1].turn.after
  }

  /** A successful AUTH before step `k` that no failed one has undone. */
  ghost predicate AuthedBefore(steps: seq<Step>, k: nat)
    requires k <= |steps|
  {
    exists h :: 0 <= h < k && Says(steps[h], AuthOk) && NoFailure(steps, h + 1, k)
  }

  predicate NoFailure(steps: seq<Step>, from: nat, to: nat)
    requires to <= |steps|
  {
    forall i :: from <= i < to ==> !Says(steps[i], AuthFailed)
  }

  predicate NoReset(steps: seq<Step>, from: nat, to: nat)
    requires to <= |steps|
  {
    forall i :: from <= i < to ==> !Resets(steps[i])
  }

  /** Step `i` is an accepted MAIL, under authentication when that is required, and nothing reset it before step `k`. */
  ghost predicate MailHolds(config: Config, steps: seq<Step>, i: nat, k: nat)
    requires i < k <= |steps|
  {
    Says(steps[i], SenderOk) && NoReset(steps, i, k) && (config.requireAuth ==> AuthedBefore(steps, i))
  }

  ghost predicate HasMail(config: Config, steps: seq<Step>, k: nat)
    requires k <= |steps|
  {
    exists i :: 0 <= i < k && MailHolds(config, steps, i, k)
  }

  /** Step `j` is a RCPT accepted after the MAIL of step `i`. */
  ghost predicate RcptHolds(config: Config, steps: seq<Step>, i: nat, j: nat, k: nat)
    requires k <= |steps|
  {
    i < j < k && MailHolds(config, steps, i, k) && Says(steps[j], RecipientOk)
  }

  ghost predicate HasRcpt(config: Config, steps: seq<Step>, k: nat)
    requires k <= |steps|
  {
    exists i, j :: RcptHolds(config, steps, i, j, k)
  }

  ghost predicate Gated(config: Config, s: Session, steps: seq<Step>, k: nat)
    requires k <= |steps|
  {
    var state := StateAt(s, steps, k);
    && (config.requireAuth && state.authed ==> AuthedBefore(steps, k))
    && (state.mailFrom.Some? ==> HasMail(config, steps, k))
    && (state.rcptTo != [] ==> HasRcpt(config, steps, k) && state.mailFrom.Some?)
  }

  lemma AuthedCarries(steps: seq<Step>, k: nat)
    requires k < |steps| && AuthedBefore(steps, k) && !Says(steps[k], AuthFailed)
    ensures AuthedBefore(steps, k + 1)
  {
    var h :| 0 <= h < k && Says(steps[h], AuthOk) && NoFailure(steps, h + 1, k);
    assert NoFailure(steps, h + 1, k + 1);
  }

  lemma MailCarries(config: Config, steps: seq<Step>, k: nat)
    requires k < |steps| && HasMail(config, steps, k) && !Resets(steps[k])
    ensures HasMail(config, steps, k + 1)
    ensures Says(steps[k], RecipientOk) ==> HasRcpt(config, steps, k + 1)
  {
    hide AuthedBefore;
    var i :| 0 <= i < k && MailHolds(config, steps, i, k);
    assert MailHolds(config, steps, i, k + 1);
    if Says(steps[k], RecipientOk) {
      assert RcptHolds(config, steps, i, k, k + 1);
    }
  }

  lemma RcptCarries(config: Config, steps: seq<Step>, k: nat)
    requires k < |steps| && HasRcpt(config, steps, k) && !Resets(steps[k])
    ensures HasRcpt(config, steps, k + 1)
  {
    hide AuthedBefore;
    var i, j :| RcptHolds(config, steps, i, j, k);
    assert MailHolds(config, steps, i, k + 1);
    assert RcptHolds(config, steps, i, j, k + 1);
  }

  lemma MailStarts(config: Config, steps: seq<Step>, k: nat)
    requires k < |steps| && Says(steps[k], SenderOk) && !Resets(steps[k])
    requires config.requireAuth ==> AuthedBefore(steps, k)
    ensures HasMail(config, steps, k + 1)
  {
    hide AuthedBefore;
    assert MailHolds(config, steps, k, k + 1);
  }

  lemma GateStep(config: Config, s: Session, steps: seq<Step>, k: nat)
    requires IsTrace(config, s, steps) && k < |steps| && Gated(config, s, steps, k)
    ensures Gated(config, s, steps, k + 1)
  {
    hide AuthedBefore, HasMail, HasRcpt, Says, Resets, IsStep;
    var step := steps[k];
    assert step.before == StateAt(s, steps, k);
    StepIsExplained(config, step);
    AuthGate(config, s, steps, k);
    var state, after := step.before, step.turn.after;
    if Says(step, SenderOk) {
      MailStarts(config, steps, k);
    } else if after.mailFrom.Some? {
      MailCarries(config, steps, k);
    }
    if after.rcptTo != [] {
      if state.rcptTo != [] {
        RcptCarries(config, steps, k);
      } else {
        MailCarries(config, steps, k);
      }
    }
  }

  lemma AuthGate(config: Config, s: Session, steps: seq<Step>, k: nat)
    requires IsTrace(config, s, steps) && k < |steps| && Gated(config, s, steps, k)
    ensures config.requireAuth && steps[k].turn.after.authed ==> AuthedBefore(steps, k + 1)
  {
    hide HasMail, HasRcpt, Resets, IsStep;
    var step := steps[k];
    assert step.before == StateAt(s, steps, k);
    StepIsExplained(config, step);
    if config.requireAuth && step.turn.after.authed {
      if Says(step, AuthOk) {
        assert NoFailure(steps, k + 1, k + 1);
      } else {
        AuthedCarries(steps, k);
      }
    }
  }

  lemma {:induction false} EveryPrefixIsGated(config: Config, steps: seq<Step>, k: nat)
    requires IsTrace(config, NewSession(config), steps) && k <= |steps|
    ensures Gated(config, NewSession(config), steps, k)
  {
    hide IsTrace, HasMail, HasRcpt;
    if k > 0 {
      EveryPrefixIsGated(config, steps, k - 1);
      GateStep(config, NewSession(config), steps, k - 1);
    }
  }

  /**
   On every session: recipients are stored only with a sender; a 354 is sent only after an accepted MAIL and then an
   accepted RCPT with no reset since, and, where authentication is required, that MAIL came after a successful AUTH
   that no failed one had undone.
   */
  lemma DataIsGated(config: Config, lines: seq<string>, k: nat)
    requires k < |Run(config, NewSession(config), lines)|
    ensures var steps := Run(config, NewSession(config), lines);
            && (steps[k].turn.after.rcptTo != [] ==> steps[k].turn.after.mailFrom.Some?)
            && (forall reply :: reply in steps[k].turn.replies && Code(reply) == 354 ==> HasRcpt(config, steps, k))
  {
    hide Run, HasRcpt, HasMail, AuthedBefore, IsStep, Resets, Code;
    var steps := Run(config, NewSession(config), lines);
    RunIsTrace(config, NewSession(config), lines);
    EveryPrefixIsGated(config, steps, k);
    EveryPrefixIsGated(config, steps, k + 1);
    assert steps[k].before == StateAt(NewSession(config), steps, k);
    StepIsExplained(config, steps[k]);
    forall reply | reply in steps[k].turn.replies && Code(reply) == 354
      ensures HasRcpt(config, steps, k)
    {
      GoAheadCode(reply);
    }
  }

  /** The other half of the gates: what was accepted and not reset since is still held. */
  lemma {:induction false} AcceptedIsHeld(config: Config, steps: seq<Step>, k: nat)
    requires IsTrace(config, NewSession(config), steps) && k <= |steps|
    ensures HasMail(config, steps, k) ==> StateAt(NewSession(config), steps, k).mailFrom.Some?
    ensures HasRcpt(config, steps, k) ==> StateAt(NewSession(config), steps, k).rcptTo != []
  {
    hide Says, Resets, IsStep, AuthedBefore;
    if k > 0 {
      AcceptedIsHeld(config, steps, k - 1);
      var step := steps[k - 1];
      assert step.before == StateAt(NewSession(config), steps, k - 1);
      StepKeeps(config, step);
      if HasMail(config, steps, k) {
        var i :| 0 <= i < k && MailHolds(config, steps, i, k);
        if i < k - 1 {
          assert MailHolds(config, steps, i, k - 1);
        }
      }
      if HasRcpt(config, steps, k) {
        var i: nat, j: nat :| RcptHolds(config, steps, i, j, k);
        if j < k - 1 {
          assert MailHolds(config, steps, i, k - 1) && RcptHolds(config, steps, i, j, k - 1);
        }
      }
    }
  }

  lemma StepKeeps(config: Config, step: Step)
    requires IsStep(config, step)
    ensures Says(step, SenderOk) ==> step.turn.after.mailFrom.Some?
    ensures Says(step, RecipientOk) ==> step.turn.after.rcptTo != []
    ensures step.before.mailFrom.Some? && !Resets(step) ==> step.turn.after.mailFrom.Some?
    ensures step.before.rcptTo != [] && !Resets(step) ==> step.turn.after.rcptTo != []
  {
    hide CommandWord, SplitCommand, TurnOf, AuthSucceeds, SenderAccepted, RecipientAccepted;
    var lines :| lines != [] && step.turn == TurnOf(config, step.before, lines)
                 && step.lines == lines[..TurnOf(config, step.before, lines).used];
    TurnsAnswerExactly(config, step.before, lines);
  }

  /**
   On every session the exact gate: a line is answered with the go-ahead exactly when it is DATA and an accepted RCPT
   after an accepted MAIL stands, neither reset since.
   */
  lemma GoAheadExactly(config: Config, lines: seq<string>, k: nat)
    requires k < |Run(config, NewSession(config), lines)|
    ensures var steps := Run(config, NewSession(config), lines);
            var taken := |LinesOf(steps[..k])|;
            && taken < |lines|
            && (StartData in steps[k].turn.replies <==>
                CommandWord(lines[taken], config.blank, config.custom) == "DATA" && HasRcpt(config, steps, k))
  {
    hide Run, HasRcpt, IsStep, TurnOf, LinesOf, CommandWord, SplitCommand, SenderAccepted, RecipientAccepted, AuthSucceeds;
    var steps := Run(config, NewSession(config), lines);
    RunIsTrace(config, NewSession(config), lines);
    StepsFollowTheInput(config, NewSession(config), lines, k);
    var taken := |LinesOf(steps[..k])|;
    TurnsAnswerExactly(config, steps[k].before, lines[taken..]);
    assert steps[k].before == StateAt(NewSession(config), steps, k);
    AcceptedIsHeld(config, steps, k);
    EveryPrefixIsGated(config, steps, k);
  }

  /** Of the server's own replies only the go-ahead has code 354. */
  lemma GoAheadCode(reply: Reply)
    ensures Code(reply) == 354 <==> reply == StartData
  {
  }

  /** The go-ahead is followed by the acceptance of exactly the body's bytes. */
  lemma GoAheadIsAnswered(config: Config, step: Step)
    requires IsStep(config, step) && Says(step, StartData)
    ensures step.lines != []
    ensures step.turn.replies == [StartData, Accepted(Size(Body(step.lines[1..]), config.byteLength))]
  {
    hide Trim, SplitCommand, Upper, VerbOf, CommandTurn, Body, Size, Says, AuthAttempt;
    var lines :| lines != [] && step.turn == TurnOf(config, step.before, lines)
                 && step.lines == lines[..TurnOf(config, step.before, lines).used];
    var (command, args) := SplitCommand(lines[0], config.blank);
    OnlyDataStarts(config, step.before, VerbOf(Upper(command)), args, lines[1..], step.lines);
    BlankSaysNothing(step);
    BodyOfTaken(lines);
  }

  /** The dot that ends the body is there exactly when the lines hold one. */
  lemma {:induction false} DotEndsBody(rest: seq<string>)
    ensures |Body(rest)| < |rest| <==> "." in rest
  {
    if rest != [] && rest[0] != "." {
      DotEndsBody(rest[1..]);
    }
  }

  /** The last line a turn takes after its command is a lone dot. */
  predicate ClosedByDot(turn: Turn, lines: seq<string>)
    requires turn.used <= |lines|
  {
    turn.used > 1 && lines[turn.used - 1] == "."
  }

  /**
   After the go-ahead the message is closed by a lone dot exactly when one is among the lines that follow; otherwise
   it is everything up to the end of the connection, accepted all the same.
   */
  lemma ClosedExactlyByDot(config: Config, s: Session, lines: seq<string>)
    requires lines != [] && StartData in TurnOf(config, s, lines).replies
    ensures var turn := TurnOf(config, s, lines);
            && (ClosedByDot(turn, lines) <==> "." in lines[1..])
            && (!ClosedByDot(turn, lines) ==>
                 turn.used == |lines| && turn.replies == [StartData, Accepted(Size(lines[1..], config.byteLength))])
  {
    hide Trim, SplitCommand, Upper, VerbOf, CommandTurn, Body, Size, AuthAttempt;
    var (command, args) := SplitCommand(lines[0], config.blank);
    OnlyDataStarts(config, s, VerbOf(Upper(command)), args, lines[1..], []);
    assert Says(Step(s, [], TurnOf(config, s, lines)), StartData);
    DotEndsBody(lines[1..]);
    assert lines[1..][..|lines| - 1] == lines[1..];
  }

  /** Each step of a session is the turn at the lines the steps before it have left. */
  lemma {:induction false} StepsFollowTheInput(config: Config, s: Session, lines: seq<string>, k: nat)
    requires k < |Run(config, s, lines)|
    ensures var steps := Run(config, s, lines);
            var taken := |LinesOf(steps[..k])|;
            taken < |lines| && steps[k].turn == TurnOf(config, steps[k].before, lines[taken..])
    decreases |lines|
  {
    hide TurnOf;
    var turn := TurnOf(config, s, lines);
    var steps := Run(config, s, lines);
    if k == 0 {
      assert lines[0..] == lines;
    } else {
      var left := lines[turn.used..];
      StepsFollowTheInput(config, turn.after, left, k - 1);
      var rest := Run(config, turn.after, left);
      assert steps[..k][1..] == rest[..k - 1];
      var taken := |LinesOf(rest[..k - 1])|;
      assert left[taken..] == lines[turn.used + taken..];
    }
  }

  /** On every session a message is closed by a lone dot exactly when one is among the lines still to come. */
  lemma EveryMessageIsClosedExactly(config: Config, s: Session, lines: seq<string>, k: nat)
    requires k < |Run(config, s, lines)| && Says(Run(config, s, lines)[k], StartData)
    ensures var steps := Run(config, s, lines);
            var taken := |LinesOf(steps[..k])|;
            && taken < |lines| && steps[k].turn.used <= |lines[taken..]|
            && (ClosedByDot(steps[k].turn, lines[taken..]) <==> "." in lines[taken + 1..])
  {
    hide Run, TurnOf, LinesOf;
    StepsFollowTheInput(config, s, lines, k);
    var steps := Run(config, s, lines);
    var left := lines[|LinesOf(steps[..k])|..];
    ClosedExactlyByDot(config, steps[k].before, left);
    assert left[1..] == lines[|LinesOf(steps[..k])| + 1..];
  }

  /** An input where no dot comes: the message is accepted when the connection ends. */
  lemma UnterminatedMessageIsAccepted(config: Config, s: Session)
    requires s.rcptTo != [] && !config.blank('D') && config.custom("DATA", "DATA").None?
    ensures RepliesOf(Run(config, s, ["DATA", "x"])) == [StartData, Accepted(config.byteLength("x"))]
    ensures SessionAfter(config, s, ["DATA", "x"]) == Reset(s)
  {
    hide Trim, SplitCommand, Run, SessionAfter, RepliesOf;
    var lines := ["DATA", "x"];
    CommandReads("DATA", "", config.blank);
    assert Upper("DATA") == "DATA";
    assert lines[1..] == ["x"];
    var turn := TurnOf(config, s, lines);
    assert Body(["x"]) == ["x"];
    SizeStep(config, [], "x");
    EmptySize(config);
    assert [] + ["x"] == ["x"];
    assert turn.replies == [StartData, Accepted(config.byteLength("x"))] && turn.used == 2;
    RunStep(config, s, lines);
    EmptyRun(config, turn.after);
    assert lines[turn.used..] == [];
  }

  lemma BlankSaysNothing(step: Step)
    ensures Says(step, StartData) ==> step.turn.replies != [] && (|step.turn.replies| == 1 ==> step.turn.replies[0] == StartData)
  {
  }

  lemma OnlyDataStarts(config: Config, s: Session, verb: Verb, args: string, rest: seq<string>, lines: seq<string>)
    ensures Says(Step(s, lines, CommandTurn(config, s, verb, args, rest)), StartData) ==>
              CommandTurn(config, s, verb, args, rest) == DataTurn(config, s, rest) && s.rcptTo != []
  {
    hide AuthTurn, IsAllowed, IsSender, Body, Size;
    if verb == Auth {
      AuthTurnIsExplained(config, s, args, rest, lines);
      NoGoAheadInAuth(config, s, args, rest);
    }
  }

  lemma NoGoAheadInAuth(config: Config, s: Session, args: string, rest: seq<string>)
    ensures StartData !in AuthTurn(config, s, args, rest).replies
  {
    hide AuthAttempt;
  }

  lemma BodyOfTaken(lines: seq<string>)
    requires lines != []
    ensures var body := Body(lines[1..]);
            Body(lines[..1 + Least(|body| + 1, |lines| - 1)][1..]) == body
  {
    var body := Body(lines[1..]);
    var n := Least(|body| + 1, |lines| - 1);
    assert lines[..1 + n][1..] == lines[1..][..n];
    BodyPrefix(lines[1..]);
  }

  lemma {:induction false} BodyPrefix(rest: seq<string>)
    ensures Body(rest[..Least(|Body(rest)| + 1, |rest|)]) == Body(rest)
  {
    if rest != [] && rest[0] != "." {
      var tail := rest[1..];
      BodyPrefix(tail);
      var n := Least(|Body(tail)| + 1, |tail|);
      assert rest[..n + 1][1..] == tail[..n];
    }
  }

  // ---------------------------------------------------------------------------
  // The connection
  // ---------------------------------------------------------------------------

  lemma RunStep(config: Config, s: Session, lines: seq<string>)
    requires lines != []
    ensures var turn := TurnOf(config, s, lines);
            && RepliesOf(Run(config, s, lines))
            == turn.replies + (if turn.quit then [] else RepliesOf(Run(config, turn.after, lines[turn.used..])))
            && SessionAfter(config, s, lines) == if turn.quit then turn.after else SessionAfter(config, turn.after, lines[turn.used..])
  {
    hide TurnOf;
    var turn := TurnOf(config, s, lines);
    var step, rest := Step(s, lines[..turn.used], turn), Run(config, turn.after, lines[turn.used..]);
    assert ([step] + rest)[1..] == rest;
  }

  /** A client connection: the lines still to come, the replies sent, and the session's fields. */
  class Connection {
    var input: seq<string>
    var output: seq<Reply>
    var authed: bool
    var mailFrom: Option<string>
    var rcptTo: seq<string>

    function Current(): Session
      reads this
    {
      Session(authed, mailFrom, rcptTo)
    }

    constructor (config: Config, input: seq<string>)
      ensures this.input == input && output == [] && Current() == NewSession(config)
    {
      this.input, output := input, [];
      authed, mailFrom, rcptTo := !config.requireAuth, None, [];
    }

    method ReadLine() returns (line: Option<string>)
      modifies this`input
      ensures line == if old(input) == [] then None else Some(old(input)[0])
      ensures input == if old(input) == [] then [] else old(input)[1..]
    {
      if input == [] {
        return None;
      }
      line := Some(input[0]);
      input := input[1..];
    }

    method Write(reply: Reply)
      modifies this`output
      ensures output == old(output) + [reply]
    {
      output := output + [reply];
    }

    method ResetTransaction()
      modifies this`mailFrom, this`rcptTo
      ensures Current() == Reset(old(Current()))
    {
      mailFrom, rcptTo := None, [];
    }

    /** The user name, if not given already, and the password. */
    method HandleAuthLogin(config: Config, initial: string) returns (ok: bool)
      modifies this`input, this`output
      ensures var a := LoginAttempt(config, initial, old(input));
              ok == a.ok && output == old(output) + a.asked && input == old(input)[a.taken..]
    {
      var username := TextOr(config.decodeText(initial));
      if initial == "" {
        Write(AskUser);
        var line := ReadLine();
        if line.None? {
          return false;
        }
        username := TextOr(config.decodeText(line.value));
      }
      Write(AskPassword);
      var passwordLine := ReadLine();
      if passwordLine.None? {
        return false;
      }
      ok := CredentialsMatch(config.credentials, username, TextOr(config.decodeText(passwordLine.value)));
    }

    method HandleAuth(config: Config, args: string)
      modifies this`input, this`output, this`authed
      ensures var turn := AuthTurn(config, old(Current()), args, old(input));
              output == old(output) + turn.replies && Current() == turn.after && input == old(input)[turn.used - 1..]
    {
      hide Upper, Words;
      var words := Words(args, config.blank);
      var mechanism, initial := Upper(WordOr(words, 0)), WordOr(words, 1);
      var ok := false;
      if mechanism == "PLAIN" {
        var value := initial;
        if initial == "" {
          Write(AskPlain);
          var line := ReadLine();
          value := TextOr(line);
        }
        ok := PlainOk(config, value);
      } else if mechanism == "LOGIN" {
        ok := HandleAuthLogin(config, initial);
      }
      authed := ok;
      Write(if ok then AuthOk else AuthFailed);
    }

    /** Reads the message up to a lone dot or the end of the input. */
    method ReadBody(config: Config) returns (bytes: nat)
      modifies this`input
      ensures var body := Body(old(input));
              bytes == Size(body, config.byteLength) && input == old(input)[Least(|body| + 1, |old(input)|)..]
    {
      hide Size, Body;
      ghost var whole := input;
      ghost var n := 0;
      bytes := 0;
      BodyStarts(config, whole);
      while input != []
        invariant n <= |whole| && input == whole[n..]
        invariant DotFree(whole, n)
        invariant bytes == Size(whole[..n], config.byteLength)
        decreases |input|
      {
        var line := input[0];
        BodyAdvances(config, whole, n);
        input := input[1..];
        if line == "." {
          BodyIs(whole, n);
          return;
        }
        bytes := bytes + config.byteLength(line);
        n := n + 1;
      }
      BodyIs(whole, n);
    }

    method HandleConnection(config: Config)
      modifies this
      ensures output == old(output) + [Banner] + RepliesOf(Run(config, old(Current()), old(input)))
      ensures Code(output[|old(output)|]) == 220
      ensures Current() == SessionAfter(config, old(Current()), old(input))
    {
      hide Run, RepliesOf, SessionAfter, TurnOf;
      ghost var begun, lines := Current(), input;
      Write(Banner);
      ghost var sent := output;
      ghost var done: seq<Reply> := [];
      assert sent + [] == sent;
      while input != []
        invariant output == sent + done
        invariant RepliesOf(Run(config, begun, lines)) == done + RepliesOf(Run(config, Current(), input))
        invariant SessionAfter(config, begun, lines) == SessionAfter(config, Current(), input)
        decreases |input|
      {
        RunStep(config, Current(), input);
        ghost var turn := TurnOf(config, Current(), input);
        var quit := HandleLine(config);
        Associative(sent, done, turn.replies);
        done := done + turn.replies;
        if quit {
          assert done + [] == done;
          return;
        }
      }
      EmptyRun(config, Current());
      assert done + [] == done;
    }

    /** One turn of the loop. */
    method HandleLine(config: Config) returns (quit: bool)
      requires input != []
      modifies this
      ensures var turn := TurnOf(config, old(Current()), old(input));
              output == old(output) + turn.replies && Current() == turn.after
              && input == old(input)[turn.used..] && quit == turn.quit
    {
      hide Trim, SplitCommand, Upper, VerbOf, IsSender, IsAllowed, AuthAttempt, Body, Size;
      quit := false;
      var line := input[0];
      input := input[1..];
      if Trim(line, config.blank) == "" {
        assert output + [] == output;
        return;
      }
      var (command, args) := SplitCommand(line, config.blank);
      var upper := Upper(command);
      var custom := config.custom(upper, line);
      if custom.Some? {
        Write(Custom(custom.value));
        return;
      }
      match VerbOf(upper) {
        case Ehlo => Write(Capabilities);
        case Helo => Write(Greeting);
        case Auth => HandleAuth(config, args);
        case Mail =>
          if config.requireAuth && !authed {
            Write(AuthRequired);
          } else if IsSender(args) {
            mailFrom := Some(args);
            Write(SenderOk);
          } else {
            Write(SenderSyntax);
          }
        case Rcpt =>
          if mailFrom.None? {
            Write(NeedMail);
          } else if IsAllowed(config, args) {
            rcptTo := rcptTo + [args];
            Write(RecipientOk);
          } else {
            Write(UserUnknown);
          }
        case Data =>
          if rcptTo == [] {
            Write(NeedRcpt);
          } else {
            Write(StartData);
            var bytes := ReadBody(config);
            ResetTransaction();
            Write(Accepted(bytes));
          }
        case Rset =>
          ResetTransaction();
          Write(ResetDone);
        case Verify => Write(CannotVerify);
        case Noop => Write(NoopOk);
        case Quit =>
          Write(Bye);
          quit := true;
        case Other => Write(Unrecognized);
      }
    }
  }

  lemma EmptyRun(config: Config, s: Session)
    ensures RepliesOf(Run(config, s, [])) == [] && SessionAfter(config, s, []) == s
  {
  }

  lemma EmptySize(config: Config)
    ensures Size([], config.byteLength) == 0
  {
  }

  lemma SizeStep(config: Config, body: seq<string>, line: string)
    ensures Size(body + [line], config.byteLength) == Size(body, config.byteLength) + config.byteLength(line)
  {
    assert (body + [line])[..|body|] == body;
  }

  predicate DotFree(rest: seq<string>, n: nat)
    requires n <= |rest|
  {
    forall i :: 0 <= i < n ==> rest[i] != "."
  }

  lemma BodyStarts(config: Config, whole: seq<string>)
    ensures whole == whole[0..] && DotFree(whole, 0) && Size(whole[..0], config.byteLength) == 0
  {
  }

  lemma BodyAdvances(config: Config, whole: seq<string>, n: nat)
    requires n < |whole| && DotFree(whole, n)
    ensures whole[n..][0] == whole[n] && whole[n..][1..] == whole[n + 1..]
    ensures Size(whole[..n + 1], config.byteLength) == Size(whole[..n], config.byteLength) + config.byteLength(whole[n])
    ensures whole[n] != "." ==> DotFree(whole, n + 1)
  {
    InitAndLast(whole, n);
    SizeStep(config, whole[..n], whole[n]);
  }

  /** A dot-free prefix that ends at a dot or at the end is the body. */
  lemma {:induction false} BodyIs(rest: seq<string>, n: nat)
    requires n <= |rest| && DotFree(rest, n)
    requires n < |rest| ==> rest[n] == "."
    ensures Body(rest) == rest[..n]
  {
    if n > 0 {
      BodyIs(rest[1..], n - 1);
      assert rest[..n] == [rest[0]] + rest[1..][..n - 1];
    }
  }
}
