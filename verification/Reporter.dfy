/**
 The engine's event reporter: a bounded queue, at most four posting tasks, at most three posts of one event under
 one event id. `fates` and `posts` are history: what became of every reported event, and every post sent.
 */
module Reporter {
  import opened Sequences

  const QUEUE_CAPACITY: nat := 1024
  const CONCURRENCY: nat := 4
  const ATTEMPTS: nat := 3

  datatype Answer = Success | ClientError | ServerError | NetworkError

  /** The answers after which a task posts again, while it has attempts left. */
  predicate Retryable(answer: Answer) {
    answer.ServerError? || answer.NetworkError?
  }

  datatype Fate =
    | Queued
    | InFlight(eventId: nat, answers: seq<Answer>)
    | Finished(eventId: nat, answers: seq<Answer>)
    | Dropped
    | Refused

  predicate Started(fate: Fate) {
    fate.InFlight? || fate.Finished?
  }

  /** The posting loop is over: an answer that ends it, or no attempt left. */
  predicate Done(answers: seq<Answer>) {
    answers != [] && (!Retryable(answers[|answers| - 1]) || |answers| >= ATTEMPTS)
  }

  datatype Post = Post(report: nat, eventId: nat, answer: Answer)

  /** Events are numbered in the order they are reported; `nextEventId` stands for the UUID generator. */
  datatype State = State(
    queue: seq<nat>, tasks: set<nat>, droppedEvents: nat, nextEventId: nat, closed: bool,
    fates: seq<Fate>, posts: seq<Post>)

  /** `Close` is the receiver going away; a finished task leaves the join set only when it is joined. */
  datatype Step = Report | Close | Start | PostOnce(report: nat, answer: Answer) | Join(report: nat)

  predicate Enabled(s: State, step: Step) {
    match step
    case Report => true
    case Close => true
    case Start => !s.closed && |s.tasks| < CONCURRENCY && s.queue != [] && s.queue[0] < |s.fates|
    case PostOnce(n, _) => n in s.tasks && n < |s.fates| && s.fates[n].InFlight? && !Done(s.fates[n].answers)
    case Join(n) => n in s.tasks && n < |s.fates| && s.fates[n].InFlight? && Done(s.fates[n].answers)
  }

  function Next(s: State, step: Step): State
    requires Enabled(s, step)
  {
    match step
    case Report =>
      if s.closed then s.(fates := s.fates + [Refused])
      else if |s.queue| >= QUEUE_CAPACITY then s.(fates := s.fates + [Dropped], droppedEvents := s.droppedEvents + 1)
      else s.(fates := s.fates + [Queued], queue := s.queue + [|s.fates|])
    case Close => s.(closed := true)
    case Start =>
      var n := s.queue[0];
      s.(queue := s.queue[1..], tasks := s.tasks + {n}, nextEventId := s.nextEventId + 1,
         fates := s.fates[n := InFlight(s.nextEventId, [])])
    case PostOnce(n, answer) =>
      var InFlight(eventId, answers) := s.fates[n];
      s.(fates := s.fates[n := InFlight(eventId, answers + [answer])], posts := s.posts + [Post(n, eventId, answer)])
    case Join(n) =>
      s.(tasks := s.tasks - {n}, fates := s.fates[n := Finished(s.fates[n].eventId, s.fates[n].answers)])
  }

  const Initial: State := State([], {}, 0, 0, false, [], [])

  ghost predicate StepsTo(s: State, t: State) {
    exists step :: Enabled(s, step) && t == Next(s, step)
  }

  ghost predicate IsRun(states: seq<State>) {
    && |states| > 0 && states[0] == Initial
    && forall i :: 0 < i < |states| ==> StepsTo(states[i - 1], states[i])
  }

  // ---------------------------------------------------------------------------
  // Where the events are
  // ---------------------------------------------------------------------------

  /** The queue holds exactly the queued events, in report order. */
  ghost predicate QueueAgrees(s: State) {
    && (forall i :: 0 <= i < |s.queue| ==> s.queue[i] < |s.fates| && s.fates[s.queue[i]].Queued?)
    && (forall i, j :: 0 <= i < j < |s.queue| ==> s.queue[i] < s.queue[j])
    && (forall n :: 0 <= n < |s.fates| && s.fates[n].Queued? ==> n in s.queue)
    && |s.queue| <= 1024
  }

  /** The join set holds exactly the events in flight, at most four. */
  ghost predicate TasksAgree(s: State) {
    && (forall n :: n in s.tasks ==> n < |s.fates| && s.fates[n].InFlight?)
    && (forall n :: 0 <= n < |s.fates| && s.fates[n].InFlight? ==> n in s.tasks)
    && |s.tasks| <= 4
  }

  /** Posting starts in report order. */
  ghost predicate StartsInOrder(s: State) {
    forall n, m :: 0 <= n < m < |s.fates| && s.fates[n].Queued? ==> !Started(s.fates[m])
  }

  /** At most three posts, each but the last answered with a reason to retry; given up only when done. */
  ghost predicate Retried(s: State) {
    forall n :: 0 <= n < |s.fates| && Started(s.fates[n]) ==>
      && ProperAnswers(s.fates[n].answers)
      && (s.fates[n].Finished? ==> Done(s.fates[n].answers))
  }

  predicate ProperAnswers(answers: seq<Answer>) {
    |answers| <= 3 && forall i :: 0 <= i < |answers| - 1 ==> Retryable(answers[i])
  }

  /** One event id for one event, another for every other. */
  ghost predicate Identified(s: State) {
    && (forall n :: 0 <= n < |s.fates| && Started(s.fates[n]) ==> s.fates[n].eventId < s.nextEventId)
    && (forall n, m :: 0 <= n < m < |s.fates| && Started(s.fates[n]) && Started(s.fates[m]) ==>
         s.fates[n].eventId != s.fates[m].eventId)
  }

  /** The posts sent for an event are its answers, under its one event id. */
  ghost predicate PostsAgree(s: State) {
    && (forall i :: 0 <= i < |s.posts| ==> s.posts[i].report < |s.fates|)
    && (forall n :: 0 <= n < |s.fates| ==>
         PostsFor(s.posts, n) == if Started(s.fates[n]) then Sent(n, s.fates[n].eventId, s.fates[n].answers) else [])
  }

  function Sent(n: nat, eventId: nat, answers: seq<Answer>): (posts: seq<Post>)
    ensures |posts| == |answers|
  {
    seq(|answers|, i requires 0 <= i < |answers| => Post(n, eventId, answers[i]))
  }

  function PostsFor(posts: seq<Post>, n: nat): seq<Post> {
    if posts == [] then []
    else
      var init, last := PostsFor(posts[..|posts| - 1], n), posts[|posts| - 1];
      if last.report == n then init + [last] else init
  }

  lemma PostsForAppend(posts: seq<Post>, post: Post, n: nat)
    ensures PostsFor(posts + [post], n) == PostsFor(posts, n) + (if post.report == n then [post] else [])
  {
    assert (posts + [post])[..|posts|] == posts;
  }

  lemma {:induction false} NoPosts(posts: seq<Post>, n: nat)
    requires forall i :: 0 <= i < |posts| ==> posts[i].report != n
    ensures PostsFor(posts, n) == []
  {
    if posts != [] {
      NoPosts(posts[..|posts| - 1], n);
    }
  }

  lemma QueueReport(s: State)
    requires QueueAgrees(s)
    ensures QueueAgrees(Next(s, Report))
  {
    var t := Next(s, Report);
    forall n | 0 <= n < |t.fates| && t.fates[n].Queued?
      ensures n in t.queue
    {
      if n < |s.fates| {
        assert t.fates[n] == s.fates[n];
        assert n in s.queue;
      }
    }
  }

  lemma QueueStart(s: State)
    requires QueueAgrees(s) && Enabled(s, Start)
    ensures QueueAgrees(Next(s, Start))
  {
    var t := Next(s, Start);
    HeadAndTail(s.queue, 0);
    WholeSlice(s.queue);
    forall n | 0 <= n < |t.fates| && t.fates[n].Queued?
      ensures n in t.queue
    {
      assert n in s.queue && n != s.queue[0];
    }
  }

  lemma QueueUnmoved(s: State, n: nat, fate: Fate, tasks: set<nat>, posts: seq<Post>)
    requires QueueAgrees(s) && n < |s.fates| && !s.fates[n].Queued? && !fate.Queued?
    ensures QueueAgrees(s.(tasks := tasks, posts := posts, fates := s.fates[n := fate]))
  {
    var t := s.(fates := s.fates[n := fate]);
    forall m | 0 <= m < |t.fates| && t.fates[m].Queued?
      ensures m in t.queue
    {
      assert s.fates[m].Queued?;
    }
  }

  lemma QueueStep(s: State, step: Step)
    requires QueueAgrees(s) && TasksAgree(s) && Enabled(s, step)
    ensures QueueAgrees(Next(s, step))
  {
    hide Done;
    match step
    case Report => QueueReport(s);
    case Start => QueueStart(s);
    case Close =>
    case PostOnce(n, _) =>
      QueueUnmoved(s, n, Next(s, step).fates[n], s.tasks, Next(s, step).posts);
    case Join(n) =>
      QueueUnmoved(s, n, Next(s, step).fates[n], s.tasks - {n}, s.posts);
  }

  lemma TasksStep(s: State, step: Step)
    requires TasksAgree(s) && Enabled(s, step)
    ensures TasksAgree(Next(s, step))
  {
    hide Done;
    if step.Start? {
      hide *;
      TaskStarts(s);
    } else if step.Join? {
      hide *;
      TaskEnds(s, step.report);
    }
  }

  lemma TaskStarts(s: State)
    requires TasksAgree(s) && Enabled(s, Start)
    ensures TasksAgree(Next(s, Start))
  {
    hide Done;
  }

  lemma TaskEnds(s: State, n: nat)
    requires TasksAgree(s) && Enabled(s, Join(n))
    ensures TasksAgree(Next(s, Join(n)))
  {
    hide Done;
  }

  lemma OrderStep(s: State, step: Step)
    requires QueueAgrees(s) && StartsInOrder(s) && Enabled(s, step)
    ensures StartsInOrder(Next(s, step))
  {
    hide Done;
    var t := Next(s, step);
    if step.Start? {
      forall n, m | 0 <= n < m < |t.fates| && t.fates[n].Queued?
        ensures !Started(t.fates[m])
      {
        assert n in s.queue;
      }
    }
  }

  lemma RetriedStep(s: State, step: Step)
    requires Retried(s) && Enabled(s, step)
    ensures Retried(Next(s, step))
  {
    var t := Next(s, step);
    if step.PostOnce? {
      AnswersGrow(s.fates[step.report].answers, step.answer);
    }
  }

  lemma AnswersGrow(answers: seq<Answer>, answer: Answer)
    requires ProperAnswers(answers) && !Done(answers)
    ensures ProperAnswers(answers + [answer])
  {
  }

  lemma IdentifiedStep(s: State, step: Step)
    requires Identified(s) && Enabled(s, step)
    ensures Identified(Next(s, step))
  {
    hide Done;
  }

  lemma PostsStep(s: State, step: Step)
    requires PostsAgree(s) && QueueAgrees(s) && Enabled(s, step)
    ensures PostsAgree(Next(s, step))
  {
    hide Done, PostsFor;
    var t := Next(s, step);
    match step
    case PostOnce(n, answer) =>
      var InFlight(eventId, answers) := s.fates[n];
      forall m | 0 <= m < |t.fates|
        ensures PostsFor(t.posts, m) == if Started(t.fates[m]) then Sent(m, t.fates[m].eventId, t.fates[m].answers) else []
      {
        PostsForAppend(s.posts, Post(n, eventId, answer), m);
        if m == n {
          assert Sent(n, eventId, answers + [answer]) == Sent(n, eventId, answers) + [Post(n, eventId, answer)];
        }
      }
    case Report => NoPosts(s.posts, |s.fates|);
    case Start => assert Sent(s.queue[0], s.nextEventId, []) == [];
    case Close =>
    case Join(_) =>
  }

  ghost predicate Inv(s: State) {
    QueueAgrees(s) && TasksAgree(s) && StartsInOrder(s) && Retried(s) && Identified(s) && PostsAgree(s)
  }

  /**
   In every state of every run: the queue, the join set and the history agree on where each event is, at most four
   are in flight, posting starts in report order, and each event is posted at most three times under its own id.
   */
  lemma {:induction false} EveryRunKeepsInv(states: seq<State>)
    requires IsRun(states)
    ensures Inv(states[|states| - 1])
  {
    hide Next, Enabled, Inv;
    if |states| == 1 {
      InitialInv();
    } else {
      var k := |states| - 2;
      RunPrefix(states);
      EveryRunKeepsInv(states[..k + 1]);
      assert StepsTo(states[k], states[k + 1]);
      var step :| Enabled(states[k], step) && states[k + 1] == Next(states[k], step);
      InvStep(states[k], step);
    }
  }

  lemma InvStep(s: State, step: Step)
    requires Inv(s) && Enabled(s, step)
    ensures Inv(Next(s, step))
  {
    hide Next, Enabled, QueueAgrees, TasksAgree, StartsInOrder, Retried, Identified, PostsAgree;
    QueueStep(s, step);
    TasksStep(s, step);
    OrderStep(s, step);
    RetriedStep(s, step);
    IdentifiedStep(s, step);
    PostsStep(s, step);
  }

  lemma InitialInv()
    ensures Inv(Initial)
  {
  }

  lemma RunPrefix(states: seq<State>)
    requires IsRun(states) && |states| > 1
    ensures IsRun(states[..|states| - 1])
  {
    hide StepsTo;
  }

  // ---------------------------------------------------------------------------
  // Conservation
  // ---------------------------------------------------------------------------

  datatype Kind = AtQueue | AtTask | AtEnd | AtDrop | AtRefusal

  function KindOf(fate: Fate): Kind {
    match fate
    case Queued => AtQueue
    case InFlight(_, _) => AtTask
    case Finished(_, _) => AtEnd
    case Dropped => AtDrop
    case Refused => AtRefusal
  }

  function Count(fates: seq<Fate>, kind: Kind): nat {
    if fates == [] then 0
    else Count(fates[..|fates| - 1], kind) + (if KindOf(fates[|fates| - 1]) == kind then 1 else 0)
  }

  lemma {:induction false} KindsAddUp(fates: seq<Fate>)
    ensures Count(fates, AtQueue) + Count(fates, AtTask) + Count(fates, AtEnd) + Count(fates, AtDrop)
          + Count(fates, AtRefusal) == |fates|
  {
    if fates != [] {
      KindsAddUp(fates[..|fates| - 1]);
    }
  }

  lemma CountAppend(fates: seq<Fate>, fate: Fate, kind: Kind)
    ensures Count(fates + [fate], kind) == Count(fates, kind) + (if KindOf(fate) == kind then 1 else 0)
  {
    assert (fates + [fate])[..|fates|] == fates;
  }

  lemma {:induction false} CountUpdate(fates: seq<Fate>, n: nat, fate: Fate, kind: Kind)
    requires n < |fates|
    ensures Count(fates[n := fate], kind)
         == Count(fates, kind) - (if KindOf(fates[n]) == kind then 1 else 0) + (if KindOf(fate) == kind then 1 else 0)
  {
    var k := |fates| - 1;
    if n == k {
      assert fates[n := fate][..k] == fates[..k];
    } else {
      CountUpdate(fates[..k], n, fate, kind);
      assert fates[n := fate][..k] == fates[..k][n := fate];
    }
  }

  ghost predicate Counted(s: State) {
    && |s.queue| == Count(s.fates, AtQueue)
    && |s.tasks| == Count(s.fates, AtTask)
    && s.droppedEvents == Count(s.fates, AtDrop)
  }

  lemma CountedReport(s: State)
    requires Counted(s)
    ensures Counted(Next(s, Report))
  {
    hide Count;
    var fate := Next(s, Report).fates[|s.fates|];
    CountAppend(s.fates, fate, AtQueue);
    CountAppend(s.fates, fate, AtTask);
    CountAppend(s.fates, fate, AtDrop);
  }

  lemma CountedMove(fates: seq<Fate>, n: nat, fate: Fate)
    requires n < |fates|
    ensures Count(fates[n := fate], AtQueue)
         == Count(fates, AtQueue) - (if fates[n].Queued? then 1 else 0) + (if fate.Queued? then 1 else 0)
    ensures Count(fates[n := fate], AtTask)
         == Count(fates, AtTask) - (if fates[n].InFlight? then 1 else 0) + (if fate.InFlight? then 1 else 0)
    ensures Count(fates[n := fate], AtDrop)
         == Count(fates, AtDrop) - (if fates[n].Dropped? then 1 else 0) + (if fate.Dropped? then 1 else 0)
  {
    hide Count;
    CountUpdate(fates, n, fate, AtQueue);
    CountUpdate(fates, n, fate, AtTask);
    CountUpdate(fates, n, fate, AtDrop);
  }

  lemma HeadIsQueued(s: State)
    requires QueueAgrees(s) && TasksAgree(s) && Enabled(s, Start)
    ensures s.fates[s.queue[0]].Queued? && s.queue[0] !in s.tasks
  {
  }

  lemma CountedStep(s: State, step: Step)
    requires Counted(s) && QueueAgrees(s) && TasksAgree(s) && Enabled(s, step)
    ensures Counted(Next(s, step))
  {
    hide Done, Count, QueueAgrees, TasksAgree;
    if step.Start? {
      HeadIsQueued(s);
    }
    match step
    case Report => CountedReport(s);
    case Close =>
    case Start => CountedMove(s.fates, s.queue[0], InFlight(s.nextEventId, []));
    case PostOnce(n, answer) => CountedMove(s.fates, n, Next(s, step).fates[n]);
    case Join(n) => CountedMove(s.fates, n, Next(s, step).fates[n]);
  }

  lemma {:induction false} EveryRunCounts(states: seq<State>)
    requires IsRun(states)
    ensures Counted(states[|states| - 1])
  {
    hide Next, Enabled, QueueAgrees, TasksAgree, StartsInOrder, Retried, Identified, PostsAgree;
    if |states| > 1 {
      var k := |states| - 2;
      RunPrefix(states);
      EveryRunCounts(states[..k + 1]);
      EveryRunKeepsInv(states[..k + 1]);
      assert StepsTo(states[k], states[k + 1]);
      var step :| Enabled(states[k], step) && states[k + 1] == Next(states[k], step);
      CountedStep(states[k], step);
    }
  }

  /** No event is lost or counted twice: the five places add up to the number of reports. */
  lemma NothingIsLost(states: seq<State>)
    requires IsRun(states)
    ensures var s := states[|states| - 1];
            |s.queue| + |s.tasks| + Count(s.fates, AtEnd) + s.droppedEvents + Count(s.fates, AtRefusal) == |s.fates|
  {
    EveryRunCounts(states);
    KindsAddUp(states[|states| - 1].fates);
  }

  /** What the service sees of one event: at most three posts, all under one id that no other event's post carries. */
  lemma PostsOfOneEvent(states: seq<State>, i: nat, j: nat)
    requires IsRun(states)
    requires i < |states[|states| - 1].posts| && j < |states[|states| - 1].posts|
    ensures var posts := states[|states| - 1].posts;
            && |PostsFor(posts, posts[i].report)| <= 3
            && (posts[i].report == posts[j].report <==> posts[i].eventId == posts[j].eventId)
  {
    hide StepsTo, PostsFor;
    EveryRunKeepsInv(states);
    var s := states[|states| - 1];
    PostIsSent(s, i);
    PostIsSent(s, j);
  }

  lemma PostIsSent(s: State, i: nat)
    requires Inv(s) && i < |s.posts|
    ensures s.posts[i].report < |s.fates| && Started(s.fates[s.posts[i].report])
    ensures s.posts[i].eventId == s.fates[s.posts[i].report].eventId
    ensures |PostsFor(s.posts, s.posts[i].report)| <= 3
  {
    hide PostsFor;
    InPostsFor(s.posts, i);
  }

  lemma {:induction false} InPostsFor(posts: seq<Post>, i: nat)
    requires i < |posts|
    ensures posts[i] in PostsFor(posts, posts[i].report)
  {
    if i < |posts| - 1 {
      InPostsFor(posts[..|posts| - 1], i);
    }
  }

  // ---------------------------------------------------------------------------
  // What is posted again, and what is given up
  // ---------------------------------------------------------------------------

  /** A post that the service may still accept later: it answered with a server error, or could not be reached. */
  predicate Worth(answer: Answer) {
    answer == ServerError || answer == NetworkError
  }

  /**
   On every run an event is given up only once it was accepted or rejected, or after three posts; all its posts but the
   last met a server error or no answer. A task in flight posts again exactly while that is so, and otherwise can only
   be joined.
   */
  lemma PostedUntilSettled(states: seq<State>, n: nat, answer: Answer)
    requires IsRun(states) && n < |states[|states| - 1].fates|
    ensures var s := states[|states| - 1];
            && (s.fates[n].Finished? ==>
                 var answers := s.fates[n].answers;
                 && 1 <= |answers| <= 3
                 && (answers[|answers| - 1] == Success || answers[|answers| - 1] == ClientError || |answers| == 3)
                 && forall i :: 0 <= i < |answers| - 1 ==> Worth(answers[i]))
            && (s.fates[n].InFlight? ==>
                 var answers := s.fates[n].answers;
                 var again := answers == [] || (|answers| < 3 && Worth(answers[|answers| - 1]));
                 (Enabled(s, PostOnce(n, answer)) <==> again) && (Enabled(s, Join(n)) <==> !again))
  {
    hide StepsTo, QueueAgrees, StartsInOrder, Identified, PostsAgree;
    EveryRunKeepsInv(states);
  }

  /** A report is queued exactly while the reporter is there and has room for it; the counter counts those it drops. */
  lemma ReportsAreQueuedExactly(s: State)
    ensures var t := Next(s, Report);
            && |t.fates| == |s.fates| + 1 && t.fates[..|s.fates|] == s.fates
            && t.tasks == s.tasks && t.posts == s.posts && t.closed == s.closed
            && (!s.closed && |s.queue| < 1024 <==> t.fates[|s.fates|] == Queued)
            && (!s.closed && |s.queue| < 1024 <==> t.queue == s.queue + [|s.fates|])
            && (!s.closed && |s.queue| >= 1024 <==> t.fates[|s.fates|] == Dropped)
            && (!s.closed && |s.queue| >= 1024 <==> t.droppedEvents == s.droppedEvents + 1)
            && (s.closed <==> t.fates[|s.fates|] == Refused)
  {
    assert s.queue != s.queue + [|s.fates|];
  }

  /** On every run the oldest queued event starts as soon as fewer than four are in flight. */
  lemma OldestStarts(states: seq<State>)
    requires IsRun(states)
    ensures var s := states[|states| - 1];
            && (Enabled(s, Start) <==> !s.closed && |s.tasks| < 4 && s.queue != [])
            && (Enabled(s, Start) ==>
                 Next(s, Start).queue == s.queue[1..] && Next(s, Start).fates == s.fates[s.queue[0] := InFlight(s.nextEventId, [])])
  {
    hide StepsTo, StartsInOrder, Identified, PostsAgree, Retried;
    EveryRunKeepsInv(states);
  }

  /** The reporter starts open, with nothing counted; once its receiver has gone it stays closed. */
  lemma {:induction false} ClosedForGood(states: seq<State>, i: nat, j: nat)
    requires IsRun(states) && i <= j < |states|
    ensures !states[0].closed && states[0].droppedEvents == 0 && states[0].fates == [] && states[0].posts == []
    ensures Enabled(states[i], Close) && Next(states[i], Close) == states[i].(closed := true)
    ensures states[i].closed ==> states[j].closed
  {
    if i < j {
      ClosedForGood(states, i, j - 1);
      assert StepsTo(states[j - 1], states[j]);
    }
  }
}
