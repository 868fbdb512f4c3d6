/**
 Memcached command framing: a stream arrives in chunks, is cut into lines as they complete, and the first 32 lines that
 are not blank are answered. `blank` says whether a line's text trims to nothing.
 */
module Memcached {
  import opened Wrappers
  import opened Bytes
  import opened Sequences

  const MAX_REQUEST_SIZE: nat := 4096
  const CHUNK_SIZE: nat := 512
  const MAX_COMMANDS: nat := 32
  const NEWLINE: Byte := 10

  type Line = seq<Byte>

  // ---------------------------------------------------------------------------
  // The whole stream
  // ---------------------------------------------------------------------------

  /** The non-blank complete lines of a stream, newlines included. */
  function Commands(s: seq<Byte>, blank: Line -> bool): seq<Line> {
    match Position(s, NEWLINE)
    case None => []
    case Some(k) =>
      var rest := Commands(s[k + 1..], blank);
      if blank(s[..k + 1]) then rest else [s[..k + 1]] + rest
  }

  /** What follows the last newline. */
  function Rest(s: seq<Byte>): (r: seq<Byte>)
    ensures Lacks(r, NEWLINE) && |r| <= |s| && s[|s| - |r|..] == r
  {
    match Position(s, NEWLINE)
    case None => s
    case Some(k) => Rest(s[k + 1..])
  }

  // ---------------------------------------------------------------------------
  // The handler
  // ---------------------------------------------------------------------------

  datatype Status = Open | Enough | TooLong

  datatype State = State(pending: seq<Byte>, answered: seq<Line>, status: Status)

  /** Takes complete lines off the buffer until none is left or enough are answered. */
  function Drain(pending: seq<Byte>, answered: seq<Line>, blank: Line -> bool): State
    decreases |pending|
  {
    match Position(pending, NEWLINE)
    case None => State(pending, answered, Open)
    case Some(k) =>
      if blank(pending[..k + 1]) then Drain(pending[k + 1..], answered, blank)
      else if |answered| + 1 >= MAX_COMMANDS then State(pending[k + 1..], answered + [pending[..k + 1]], Enough)
      else Drain(pending[k + 1..], answered + [pending[..k + 1]], blank)
  }

  function Absorb(s: State, chunk: seq<Byte>, blank: Line -> bool): State {
    if s.status != Open then s
    else if |s.pending + chunk| > MAX_REQUEST_SIZE then State(s.pending + chunk, s.answered, TooLong)
    else Drain(s.pending + chunk, s.answered, blank)
  }

  function Serve(chunks: seq<seq<Byte>>, blank: Line -> bool): State {
    if chunks == [] then State([], [], Open)
    else Absorb(Serve(chunks[..|chunks| - 1], blank), chunks[|chunks| - 1], blank)
  }

  function Replies(answered: seq<Line>, respond: Line -> seq<Byte>): seq<Byte> {
    if answered == [] then [] else Replies(answered[..|answered| - 1], respond) + respond(answered[|answered| - 1])
  }

  lemma {:induction false} ServeStays(chunks: seq<seq<Byte>>, k: nat, blank: Line -> bool)
    requires k <= |chunks| && Serve(chunks[..k], blank).status != Open
    ensures Serve(chunks, blank) == Serve(chunks[..k], blank)
  {
    hide Drain;
    if k == |chunks| {
      assert chunks[..k] == chunks;
    } else {
      assert chunks[..|chunks| - 1][..k] == chunks[..k];
      ServeStays(chunks[..|chunks| - 1], k, blank);
    }
  }

  /** Reads until the peer closes (the chunks run out), a command is too long, or enough are answered. */
  method Handle(chunks: seq<seq<Byte>>, blank: Line -> bool, respond: Line -> seq<Byte>)
    returns (status: Status, answered: seq<Line>, output: seq<Byte>)
    ensures status == Serve(chunks, blank).status && answered == Serve(chunks, blank).answered
    ensures output == Replies(answered, respond)
  {
    hide Drain, Serve, Replies;
    var pending: seq<Byte> := [];
    answered, output := [], [];
    assert chunks[..0] == [];
    StartOfStream(blank, respond);
    var i := 0;
    while i < |chunks|
      invariant i <= |chunks|
      invariant Serve(chunks[..i], blank) == State(pending, answered, Open)
      invariant output == Replies(answered, respond)
    {
      ServeStep(chunks, i, blank);
      pending := pending + chunks[i];
      if |pending| > MAX_REQUEST_SIZE {
        ServeStays(chunks, i + 1, blank);
        return TooLong, answered, output;
      }
      var lineEnd := Position(pending, NEWLINE);
      while lineEnd.Some?
        invariant lineEnd == Position(pending, NEWLINE)
        invariant Serve(chunks[..i + 1], blank) == Drain(pending, answered, blank)
        invariant output == Replies(answered, respond)
        decreases |pending|
      {
        DrainStep(pending, answered, blank);
        var line := pending[..lineEnd.value + 1];
        pending := pending[lineEnd.value + 1..];
        lineEnd := Position(pending, NEWLINE);
        if !blank(line) {
          RepliesStep(answered, line, respond);
          answered, output := answered + [line], output + respond(line);
          if |answered| >= MAX_COMMANDS {
            ServeStays(chunks, i + 1, blank);
            return Enough, answered, output;
          }
        }
      }
      DrainStep(pending, answered, blank);
      i := i + 1;
    }
    assert chunks[..|chunks|] == chunks;
    return Open, answered, output;
  }

  lemma StartOfStream(blank: Line -> bool, respond: Line -> seq<Byte>)
    ensures Serve([], blank) == State([], [], Open) && Replies([], respond) == []
  {
  }

  lemma ServeStep(chunks: seq<seq<Byte>>, i: nat, blank: Line -> bool)
    requires i < |chunks|
    ensures Serve(chunks[..i + 1], blank) == Absorb(Serve(chunks[..i], blank), chunks[i], blank)
  {
    hide Drain, Absorb;
    InitAndLast(chunks, i);
  }

  lemma DrainStep(pending: seq<Byte>, answered: seq<Line>, blank: Line -> bool)
    ensures match Position(pending, NEWLINE)
            case None => Drain(pending, answered, blank) == State(pending, answered, Open)
            case Some(k) =>
              var line, rest := pending[..k + 1], pending[k + 1..];
              Drain(pending, answered, blank) ==
                if blank(line) then Drain(rest, answered, blank)
                else if |answered| + 1 >= MAX_COMMANDS then State(rest, answered + [line], Enough)
                else Drain(rest, answered + [line], blank)
  {
  }

  lemma RepliesStep(answered: seq<Line>, line: Line, respond: Line -> seq<Byte>)
    ensures Replies(answered + [line], respond) == Replies(answered, respond) + respond(line)
  {
    assert (answered + [line])[..|answered|] == answered;
  }

  // ---------------------------------------------------------------------------
  // Chunk boundaries do not matter
  // ---------------------------------------------------------------------------

  lemma {:induction false} NewlineStays(s: seq<Byte>, c: seq<Byte>)
    requires Position(s, NEWLINE).Some?
    ensures Position(s + c, NEWLINE) == Position(s, NEWLINE)
  {
    if s[0] != NEWLINE {
      NewlineStays(s[1..], c);
      assert (s + c)[1..] == s[1..] + c;
    }
  }

  lemma CutLine(s: seq<Byte>, c: seq<Byte>)
    requires Position(s, NEWLINE).Some?
    ensures var k := Position(s, NEWLINE).value;
            Position(s + c, NEWLINE) == Some(k) && (s + c)[..k + 1] == s[..k + 1] && (s + c)[k + 1..] == s[k + 1..] + c
  {
    NewlineStays(s, c);
  }

  /** Draining what is left together with what follows is draining both at once. */
  lemma {:induction false} DrainResumes(s: seq<Byte>, c: seq<Byte>, answered: seq<Line>, blank: Line -> bool)
    ensures var first := Drain(s, answered, blank);
            var both := Drain(s + c, answered, blank);
            if first.status == Open then both == Drain(first.pending + c, first.answered, blank)
            else both.status == Enough && both.answered == first.answered
    decreases |s|
  {
    hide Drain, Position;
    DrainStep(s, answered, blank);
    if Position(s, NEWLINE).Some? {
      var k := Position(s, NEWLINE).value;
      CutLine(s, c);
      DrainStep(s + c, answered, blank);
      DrainResumes(s[k + 1..], c, answered, blank);
      DrainResumes(s[k + 1..], c, answered + [s[..k + 1]], blank);
    }
  }

  /** Draining answers the commands in order, up to the limit, and keeps what follows the last newline. */
  lemma {:induction false} DrainAnswers(s: seq<Byte>, answered: seq<Line>, blank: Line -> bool)
    requires |answered| < MAX_COMMANDS
    ensures var d, all := Drain(s, answered, blank), answered + Commands(s, blank);
            if |all| < MAX_COMMANDS then d == State(Rest(s), all, Open)
            else d.status == Enough && d.answered == all[..MAX_COMMANDS]
    decreases |s|
  {
    hide Drain, Position;
    DrainStep(s, answered, blank);
    if Position(s, NEWLINE).Some? {
      var k := Position(s, NEWLINE).value;
      var line, rest := s[..k + 1], s[k + 1..];
      if blank(line) {
        DrainAnswers(rest, answered, blank);
      } else {
        assert answered + ([line] + Commands(rest, blank)) == (answered + [line]) + Commands(rest, blank);
        if |answered| + 1 < MAX_COMMANDS {
          DrainAnswers(rest, answered + [line], blank);
        }
      }
    }
  }

  function Concat(chunks: seq<seq<Byte>>): seq<Byte> {
    if chunks == [] then [] else Concat(chunks[..|chunks| - 1]) + chunks[|chunks| - 1]
  }

  /** As long as it does not give up, the handler is where it would be had the stream come in one piece. */
  lemma {:induction false} ServedAsOnePiece(chunks: seq<seq<Byte>>, blank: Line -> bool)
    requires Serve(chunks, blank).status != TooLong
    ensures var served, once := Serve(chunks, blank), Drain(Concat(chunks), [], blank);
            served.status == once.status && served.answered == once.answered && (once.status == Open ==> served == once)
  {
    hide Drain;
    if chunks == [] {
      DrainStep([], [], blank);
    } else {
      var init, chunk := chunks[..|chunks| - 1], chunks[|chunks| - 1];
      ServedAsOnePiece(init, blank);
      DrainResumes(Concat(init), chunk, [], blank);
    }
  }

  function FirstCommands(s: seq<Byte>, blank: Line -> bool): seq<Line> {
    var all := Commands(s, blank);
    if |all| < 32 then all else all[..32]
  }

  /** A handler that does not give up answers the first 32 commands of the stream, in order, however it was cut up. */
  lemma AnswersFirstCommands(chunks: seq<seq<Byte>>, blank: Line -> bool)
    requires Serve(chunks, blank).status != TooLong
    ensures Serve(chunks, blank).answered == FirstCommands(Concat(chunks), blank)
    ensures Serve(chunks, blank).status == Enough <==> |Commands(Concat(chunks), blank)| >= 32
    ensures Serve(chunks, blank).status == Open ==> Serve(chunks, blank).pending == Rest(Concat(chunks))
  {
    hide Drain, Serve, Commands, Rest, Concat, Position;
    ServedAsOnePiece(chunks, blank);
    DrainAnswers(Concat(chunks), [], blank);
    assert [] + Commands(Concat(chunks), blank) == Commands(Concat(chunks), blank);
  }

  /** The lines, each with a newline after it. */
  function Ended(lines: seq<seq<Byte>>): seq<Byte> {
    if lines == [] then [] else lines[0] + [10] + Ended(lines[1..])
  }

  function NotBlank(lines: seq<seq<Byte>>, blank: Line -> bool): seq<Line> {
    if lines == [] then []
    else (if blank(lines[0] + [10]) then [] else [lines[0] + [10]]) + NotBlank(lines[1..], blank)
  }

  predicate AreLines(lines: seq<seq<Byte>>) {
    forall line :: line in lines ==> Lacks(line, 10)
  }

  /** Printed lines are found again, whatever unfinished line follows. */
  lemma {:induction false} PrintedLinesAreCommands(lines: seq<seq<Byte>>, tail: seq<Byte>, blank: Line -> bool)
    requires AreLines(lines) && Lacks(tail, 10)
    ensures Commands(Ended(lines) + tail, blank) == NotBlank(lines, blank)
    ensures Rest(Ended(lines) + tail) == tail
  {
    hide Position, Lacks;
    var s := Ended(lines) + tail;
    if lines == [] {
      assert s == tail;
      NothingBefore(tail);
    } else {
      var line, rest := lines[0], Ended(lines[1..]) + tail;
      assert s == line + [10] + rest;
      PositionAfter(line, 10, rest);
      assert s[..|line| + 1] == line + [10] && s[|line| + 1..] == rest;
      PrintedLinesAreCommands(lines[1..], tail, blank);
    }
  }

  lemma NothingBefore(tail: seq<Byte>)
    requires Lacks(tail, 10)
    ensures Position(tail, NEWLINE) == None
  {
  }

  /** Whoever sends lines gets the first 32 of those that are not blank answered, each once and in order. */
  lemma PrintedLinesAreAnswered(lines: seq<seq<Byte>>, tail: seq<Byte>, chunks: seq<seq<Byte>>, blank: Line -> bool)
    requires AreLines(lines) && Lacks(tail, 10) && Concat(chunks) == Ended(lines) + tail
    requires Serve(chunks, blank).status != TooLong
    ensures var kept := NotBlank(lines, blank);
            && Serve(chunks, blank).answered == (if |kept| < 32 then kept else kept[..32])
            && (Serve(chunks, blank).status == Enough <==> |kept| >= 32)
  {
    hide Serve, Commands, Rest, Concat, NotBlank, Ended, Lacks;
    AnswersFirstCommands(chunks, blank);
    PrintedLinesAreCommands(lines, tail, blank);
  }

  /** What is written is the responses in order, nothing between them. */
  lemma {:induction false} RepliesFollow(first: seq<Line>, second: seq<Line>, respond: Line -> seq<Byte>)
    ensures Replies([], respond) == []
    ensures forall line :: Replies([line], respond) == respond(line)
    ensures Replies(first + second, respond) == Replies(first, respond) + Replies(second, respond)
  {
    forall line: Line
      ensures Replies([line], respond) == respond(line)
    {
      RepliesStep([], line, respond);
      assert [] + [line] == [line];
    }
    if second == [] {
      assert first + second == first;
    } else {
      var init, last := second[..|second| - 1], second[|second| - 1];
      RepliesFollow(first, init, respond);
      assert first + second == (first + init) + [last];
      RepliesStep(first + init, last, respond);
    }
  }

  // ---------------------------------------------------------------------------
  // When it gives up
  // ---------------------------------------------------------------------------

  ghost predicate SplitOf(chunks: seq<seq<Byte>>, stream: seq<Byte>) {
    Concat(chunks) == stream && forall i :: 0 <= i < |chunks| ==> 0 < |chunks[i]| <= 512
  }

  /** A read that starts at `p` may be as large as a chunk: the buffer must hold it, unless enough is answered. */
  predicate FitsAt(stream: seq<Byte>, p: nat, blank: Line -> bool)
    requires p <= |stream|
  {
    |Commands(stream[..p], blank)| < 32 ==>
      |Rest(stream[..p])| + (if |stream| - p < 512 then |stream| - p else 512) <= 4096
  }

  ghost predicate Fits(stream: seq<Byte>, blank: Line -> bool) {
    forall p :: 0 <= p <= |stream| ==> FitsAt(stream, p, blank)
  }

  lemma {:induction false} ConcatPrefix(chunks: seq<seq<Byte>>, k: nat)
    requires k <= |chunks|
    ensures |Concat(chunks[..k])| <= |Concat(chunks)|
    ensures Concat(chunks[..k]) == Concat(chunks)[..|Concat(chunks[..k])|]
    ensures k < |chunks| ==> |Concat(chunks[..k])| + |chunks[k]| <= |Concat(chunks)|
  {
    if k == |chunks| {
      assert chunks[..k] == chunks;
    } else {
      var init := chunks[..|chunks| - 1];
      assert init[..k] == chunks[..k];
      ConcatPrefix(init, k);
    }
  }

  lemma {:induction false} FirstTooLong(chunks: seq<seq<Byte>>, blank: Line -> bool) returns (k: nat)
    requires Serve(chunks, blank).status == TooLong
    ensures k < |chunks| && Serve(chunks[..k], blank).status == Open
    ensures |Serve(chunks[..k], blank).pending| + |chunks[k]| > MAX_REQUEST_SIZE
  {
    hide Drain;
    var init := chunks[..|chunks| - 1];
    if Serve(init, blank).status == TooLong {
      k := FirstTooLong(init, blank);
      assert init[..k] == chunks[..k];
    } else {
      k := |chunks| - 1;
      DrainIsNeverTooLong(Serve(init, blank).pending + chunks[k], Serve(init, blank).answered, blank);
    }
  }

  lemma {:induction false} DrainIsNeverTooLong(pending: seq<Byte>, answered: seq<Line>, blank: Line -> bool)
    ensures Drain(pending, answered, blank).status != TooLong
    decreases |pending|
  {
    hide Position;
    if Position(pending, NEWLINE).Some? {
      var k := Position(pending, NEWLINE).value;
      DrainIsNeverTooLong(pending[k + 1..], answered, blank);
      DrainIsNeverTooLong(pending[k + 1..], answered + [pending[..k + 1]], blank);
    }
  }

  lemma RefusedStreamDoesNotFit(stream: seq<Byte>, chunks: seq<seq<Byte>>, blank: Line -> bool) returns (p: nat)
    requires SplitOf(chunks, stream) && Serve(chunks, blank).status == TooLong
    ensures p <= |stream| && !FitsAt(stream, p, blank)
  {
    hide Serve, Concat, Commands, Rest;
    var k := FirstTooLong(chunks, blank);
    ConcatPrefix(chunks, k);
    AnswersFirstCommands(chunks[..k], blank);
    p := |Concat(chunks[..k])|;
  }

  lemma FittingStreamIsServed(stream: seq<Byte>, chunks: seq<seq<Byte>>, blank: Line -> bool)
    requires SplitOf(chunks, stream) && Fits(stream, blank)
    ensures Serve(chunks, blank).status != TooLong
  {
    hide Serve, Concat, FitsAt;
    if Serve(chunks, blank).status == TooLong {
      var p := RefusedStreamDoesNotFit(stream, chunks, blank);
    }
  }

  /** One byte at a time. */
  function Singles(s: seq<Byte>): (chunks: seq<seq<Byte>>)
    ensures forall i :: 0 <= i < |chunks| ==> |chunks[i]| == 1
  {
    if s == [] then [] else Singles(s[..|s| - 1]) + [[s[|s| - 1]]]
  }

  lemma {:induction false} SinglesConcat(s: seq<Byte>)
    ensures Concat(Singles(s)) == s
  {
    if s != [] {
      var init := s[..|s| - 1];
      SinglesConcat(init);
      assert Singles(s)[..|Singles(s)| - 1] == Singles(init);
      assert s == init + [s[|s| - 1]];
    }
  }

  lemma SinglesAreSplit(stream: seq<Byte>)
    ensures SplitOf(Singles(stream), stream)
  {
    hide Concat, Singles;
    SinglesConcat(stream);
  }

  lemma {:induction false} ConcatAppend(a: seq<seq<Byte>>, b: seq<seq<Byte>>)
    ensures Concat(a + b) == Concat(a) + Concat(b)
  {
    if b == [] {
      assert a + b == a;
    } else {
      var init := b[..|b| - 1];
      assert (a + b)[..|a + b| - 1] == a + init;
      ConcatAppend(a, init);
    }
  }

  /** The split that reads byte by byte up to `p` and then as much as it can. */
  function ProbingSplit(stream: seq<Byte>, p: nat): (chunks: seq<seq<Byte>>)
    requires p < |stream|
  {
    var n := if |stream| - p < CHUNK_SIZE then |stream| - p else CHUNK_SIZE;
    Singles(stream[..p]) + [stream[p..p + n]] + Singles(stream[p + n..])
  }

  lemma ThreeParts<T>(a: seq<T>, b: T, c: seq<T>)
    ensures var s := a + [b] + c; s[..|a|] == a && s[..|a| + 1] == a + [b] && s[..|a| + 1][..|a|] == a && s[|a|] == b
  {
  }

  lemma ConcatOne(chunk: seq<Byte>)
    ensures Concat([chunk]) == chunk
  {
    var chunks := [chunk];
    assert chunks[..0] == [] && Concat(chunks[..0]) + chunk == chunk;
  }

  lemma CutTwice(stream: seq<Byte>, p: nat, q: nat)
    requires p <= q <= |stream|
    ensures stream[..p] + stream[p..q] + stream[q..] == stream
  {
  }

  lemma ProbingSplitIsSplit(stream: seq<Byte>, p: nat)
    requires p < |stream|
    ensures SplitOf(ProbingSplit(stream, p), stream)
    ensures var k, n := |Singles(stream[..p])|, if |stream| - p < CHUNK_SIZE then |stream| - p else CHUNK_SIZE;
            && k < |ProbingSplit(stream, p)| && Concat(ProbingSplit(stream, p)[..k]) == stream[..p]
            && |ProbingSplit(stream, p)[k]| == n
  {
    hide Concat, Singles;
    var n := if |stream| - p < CHUNK_SIZE then |stream| - p else CHUNK_SIZE;
    var a, b, c := Singles(stream[..p]), stream[p..p + n], Singles(stream[p + n..]);
    SinglesConcat(stream[..p]);
    SinglesConcat(stream[p + n..]);
    ConcatOne(b);
    ConcatAppend(a + [b], c);
    ConcatAppend(a, [b]);
    CutTwice(stream, p, p + n);
    ThreeParts(a, b, c);
  }

  lemma UnfittingStreamIsRefused(stream: seq<Byte>, p: nat, blank: Line -> bool)
    requires p < |stream| && !FitsAt(stream, p, blank)
    ensures Serve(ProbingSplit(stream, p), blank).status == TooLong
  {
    hide Concat, Commands, Rest, Singles, Serve, ProbingSplit;
    ProbingSplitIsSplit(stream, p);
    var chunks, k := ProbingSplit(stream, p), |Singles(stream[..p])|;
    if Serve(chunks[..k], blank).status == TooLong {
      ServeStays(chunks, k, blank);
    } else {
      AnswersFirstCommands(chunks[..k], blank);
      ServeStep(chunks, k, blank);
      assert Serve(chunks[..k + 1], blank).status == TooLong;
      ServeStays(chunks, k + 1, blank);
    }
  }

  lemma {:induction false} PendingIsShort(chunks: seq<seq<Byte>>, blank: Line -> bool)
    requires Serve(chunks, blank).status == Open
    ensures |Serve(chunks, blank).pending| <= MAX_REQUEST_SIZE
  {
    hide Drain;
    if chunks != [] {
      var s := Serve(chunks[..|chunks| - 1], blank);
      DrainIsShort(s.pending + chunks[|chunks| - 1], s.answered, blank);
    }
  }

  lemma {:induction false} DrainIsShort(pending: seq<Byte>, answered: seq<Line>, blank: Line -> bool)
    ensures |Drain(pending, answered, blank).pending| <= |pending|
    decreases |pending|
  {
    hide Position;
    if Position(pending, NEWLINE).Some? {
      var k := Position(pending, NEWLINE).value;
      DrainIsShort(pending[k + 1..], answered, blank);
      DrainIsShort(pending[k + 1..], answered + [pending[..k + 1]], blank);
    }
  }

  lemma NoSplitEndsLong(chunks: seq<seq<Byte>>, stream: seq<Byte>, blank: Line -> bool)
    requires SplitOf(chunks, stream) && Serve(chunks, blank).status != TooLong
    ensures FitsAt(stream, |stream|, blank)
  {
    hide Concat, Commands, Rest, Serve;
    WholeSlice(stream);
    AnswersFirstCommands(chunks, blank);
    if Serve(chunks, blank).status == Open {
      PendingIsShort(chunks, blank);
    }
  }

  /** However a stream may be cut up, the handler never gives up on it: exactly the streams that fit. */
  lemma NeverRefusedExactlyWhenFitting(stream: seq<Byte>, blank: Line -> bool)
    ensures Fits(stream, blank) <==> forall chunks :: SplitOf(chunks, stream) ==> Serve(chunks, blank).status != TooLong
  {
    hide Serve, Concat, Commands, Rest, FitsAt, SplitOf, Singles;
    if Fits(stream, blank) {
      forall chunks | SplitOf(chunks, stream)
        ensures Serve(chunks, blank).status != TooLong
      {
        FittingStreamIsServed(stream, chunks, blank);
      }
    } else {
      var p :| 0 <= p <= |stream| && !FitsAt(stream, p, blank);
      if p < |stream| {
        UnfittingStreamIsRefused(stream, p, blank);
        ProbingSplitIsSplit(stream, p);
      } else {
        SinglesAreSplit(stream);
        if Serve(Singles(stream), blank).status != TooLong {
          NoSplitEndsLong(Singles(stream), stream, blank);
        }
      }
    }
  }

  // ---------------------------------------------------------------------------
  // When it depends on the chunks
  // ---------------------------------------------------------------------------

  /** One more byte at `p` overflows the buffer however the bytes before came: a newline-free run of 4096 is waiting. */
  predicate OverflowsAt(stream: seq<Byte>, p: nat, blank: Line -> bool)
    requires p < |stream|
  {
    |Commands(stream[..p], blank)| < 32 && |Rest(stream[..p])| >= 4096
  }

  ghost predicate Overflows(stream: seq<Byte>, blank: Line -> bool) {
    exists p: nat :: p < |stream| && OverflowsAt(stream, p, blank)
  }

  lemma RefusedBytesOverflow(stream: seq<Byte>, blank: Line -> bool) returns (p: nat)
    requires Serve(Singles(stream), blank).status == TooLong
    ensures p < |stream| && OverflowsAt(stream, p, blank)
  {
    hide Serve, Concat, Commands, Rest, Singles;
    var chunks := Singles(stream);
    var k := FirstTooLong(chunks, blank);
    SinglesConcat(stream);
    ConcatPrefix(chunks, k);
    AnswersFirstCommands(chunks[..k], blank);
    p := |Concat(chunks[..k])|;
  }

  lemma SinglesAreServed(stream: seq<Byte>, blank: Line -> bool)
    requires !Overflows(stream, blank)
    ensures Serve(Singles(stream), blank).status != TooLong
  {
    hide Serve, Singles, OverflowsAt;
    if Serve(Singles(stream), blank).status == TooLong {
      var p := RefusedBytesOverflow(stream, blank);
    }
  }

  lemma {:induction false} PrefixHasFewer(a: seq<Byte>, b: seq<Byte>, blank: Line -> bool)
    ensures |Commands(a, blank)| <= |Commands(a + b, blank)| && |Rest(a + b)| <= |Rest(a)| + |b|
    decreases |a|
  {
    hide Position;
    if Position(a, NEWLINE).Some? {
      CutLine(a, b);
      PrefixHasFewer(a[Position(a, NEWLINE).value + 1..], b, blank);
    }
  }

  /** The chunk that brings the byte at `p`. */
  lemma {:induction false} ChunkAt(chunks: seq<seq<Byte>>, p: nat) returns (k: nat)
    requires p < |Concat(chunks)|
    ensures k < |chunks| && |Concat(chunks[..k])| <= p < |Concat(chunks[..k])| + |chunks[k]|
  {
    var last := |chunks| - 1;
    if p < |Concat(chunks[..last])| {
      k := ChunkAt(chunks[..last], p);
      assert chunks[..last][..k] == chunks[..k];
    } else {
      k := last;
    }
  }

  lemma OverflowIsRefused(stream: seq<Byte>, chunks: seq<seq<Byte>>, p: nat, blank: Line -> bool)
    requires SplitOf(chunks, stream) && p < |stream| && OverflowsAt(stream, p, blank)
    ensures Serve(chunks, blank).status == TooLong
  {
    hide Serve, Concat, Commands, Rest;
    var k := ChunkAt(chunks, p);
    ConcatPrefix(chunks, k);
    var q := |Concat(chunks[..k])|;
    assert stream[..p] == stream[..q] + stream[q..p];
    PrefixHasFewer(stream[..q], stream[q..p], blank);
    if Serve(chunks[..k], blank).status == TooLong {
      ServeStays(chunks, k, blank);
    } else {
      AnswersFirstCommands(chunks[..k], blank);
      ServeStep(chunks, k, blank);
      assert Serve(chunks[..k + 1], blank).status == TooLong;
      ServeStays(chunks, k + 1, blank);
    }
  }

  /** The handler gives up on a stream however it is cut up: exactly the streams with such a run. */
  lemma AlwaysRefusedExactlyWhenOverflowing(stream: seq<Byte>, blank: Line -> bool)
    ensures Overflows(stream, blank) <==> forall chunks :: SplitOf(chunks, stream) ==> Serve(chunks, blank).status == TooLong
  {
    hide Serve, Concat, Commands, Rest, SplitOf, Singles, OverflowsAt;
    if Overflows(stream, blank) {
      var p: nat :| p < |stream| && OverflowsAt(stream, p, blank);
      forall chunks | SplitOf(chunks, stream)
        ensures Serve(chunks, blank).status == TooLong
      {
        OverflowIsRefused(stream, chunks, p, blank);
      }
    } else {
      SinglesAreSplit(stream);
      SinglesAreServed(stream, blank);
    }
  }

  /** Whether the handler gives up depends on the chunks exactly for the streams that do not fit but do not overflow either. */
  lemma DependsOnChunksExactly(stream: seq<Byte>, blank: Line -> bool)
    ensures !Fits(stream, blank) && !Overflows(stream, blank) <==>
            ((exists chunks :: SplitOf(chunks, stream) && Serve(chunks, blank).status == TooLong)
             && (exists chunks :: SplitOf(chunks, stream) && Serve(chunks, blank).status != TooLong))
  {
    hide Serve, Fits, Overflows, SplitOf;
    NeverRefusedExactlyWhenFitting(stream, blank);
    AlwaysRefusedExactlyWhenOverflowing(stream, blank);
  }

  lemma RestOfRun(s: seq<Byte>)
    requires Lacks(s, NEWLINE)
    ensures Rest(s) == s
  {
  }

  lemma {:induction false} RestIsFrom(line: seq<Byte>, s: seq<Byte>, blank: Line -> bool)
    requires Lacks(line, NEWLINE) && Lacks(s, NEWLINE)
    ensures Rest(line + [NEWLINE] + s) == s && |Commands(line, blank)| == 0
  {
    PositionAfter(line, NEWLINE, s);
    assert (line + [NEWLINE] + s)[|line| + 1..] == s;
    RestOfRun(s);
  }

  /** Such a stream: 4000 bytes, a newline and 100 more bytes, served byte by byte and refused when the last 101 come at once. */
  lemma LongLineDependsOnChunks(line: seq<Byte>, tail: seq<Byte>, blank: Line -> bool)
    requires |line| == 4000 && |tail| == 100 && Lacks(line, NEWLINE) && Lacks(tail, NEWLINE)
    ensures var stream := line + [NEWLINE] + tail;
            && SplitOf(Singles(stream), stream) && Serve(Singles(stream), blank).status != TooLong
            && SplitOf(ProbingSplit(stream, 4000), stream) && Serve(ProbingSplit(stream, 4000), blank).status == TooLong
  {
    hide Serve, Concat, Commands, Rest, SplitOf, Singles, ProbingSplit;
    var stream := line + [NEWLINE] + tail;
    forall p: nat | p < |stream|
      ensures !OverflowsAt(stream, p, blank)
    {
      if p <= 4000 {
        assert stream[..p] == line[..p];
        RestOfRun(line[..p]);
      } else {
        assert stream[..p] == line + [NEWLINE] + tail[..p - 4001];
        RestIsFrom(line, tail[..p - 4001], blank);
      }
    }
    SinglesAreSplit(stream);
    SinglesAreServed(stream, blank);
    ProbingSplitIsSplit(stream, 4000);
    assert stream[..4000] == line;
    RestOfRun(line);
    RestIsFrom(line, tail, blank);
    UnfittingStreamIsRefused(stream, 4000, blank);
  }

  ghost predicate NoLongRuns(stream: seq<Byte>) {
    forall i, j :: 0 <= i <= j <= |stream| && Lacks(stream[i..j], 10) ==> j - i <= 3584
  }

  /** A stream without a newline-free run over 3584 bytes is answered completely, whatever the chunks. */
  lemma ShortLinesAreAnswered(stream: seq<Byte>, chunks: seq<seq<Byte>>, blank: Line -> bool)
    requires NoLongRuns(stream) && SplitOf(chunks, stream)
    ensures Serve(chunks, blank).status != TooLong
    ensures Serve(chunks, blank).answered == FirstCommands(stream, blank)
  {
    hide Serve, Concat, Commands, Rest;
    forall p | 0 <= p <= |stream|
      ensures FitsAt(stream, p, blank)
    {
      var r := Rest(stream[..p]);
      assert stream[p - |r|..p] == r;
      assert Lacks(stream[p - |r|..p], NEWLINE);
    }
    FittingStreamIsServed(stream, chunks, blank);
    AnswersFirstCommands(chunks, blank);
  }
}
