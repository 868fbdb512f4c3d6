/**
 The writer task and the tables it owns, updated in place. `HandleBatch` is one turn of the writer loop;
 `InsertInstanceLogBatch` is one transaction.
 */
module AuditService {
  import opened Wrappers
  import opened Sequences
  import opened AuditTable
  import opened AuditWriter

  /** A queued request; `ticket` stands for its one-shot response channel. */
  datatype Request = Request(ticket: nat, event: Event)

  datatype Outcome = Stored(row: Row) | NotFound | Failed

  datatype Reply = Reply(request: Request, outcome: Outcome)

  /** The requests for one instance, in arrival order. */
  function GroupOf(requests: seq<Request>, instance: InstanceId): (group: seq<Request>)
    ensures forall i :: 0 <= i < |group| ==> group[i].event.instanceId == instance
  {
    if requests == [] then []
    else
      var init, last := GroupOf(requests[..|requests| - 1], instance), requests[|requests| - 1];
      if last.event.instanceId == instance then init + [last] else init
  }

  function Events(group: seq<Request>): (events: seq<Event>)
    ensures |events| == |group|
  {
    seq(|group|, i requires 0 <= i < |group| => group[i].event)
  }

  /** One reply for each request of a group, in order. */
  function Replies(group: seq<Request>, result: BatchResult): (replies: seq<Reply>)
    requires result.Committed? ==> |result.logs| == |group|
    ensures |replies| == |group|
  {
    seq(|group|, i requires 0 <= i < |group| =>
      Reply(group[i], match result
                      case Committed(logs, _) => Stored(logs[i])
                      case InstanceNotFound => NotFound
                      case Internal => Failed))
  }

  function FaultOf(faults: map<InstanceId, Fault>, instance: InstanceId): Fault {
    if instance in faults then faults[instance] else NoFault
  }

  function GroupStep(requests: seq<Request>, instance: InstanceId, faults: map<InstanceId, Fault>): Step {
    Commit(instance, Events(GroupOf(requests, instance)), FaultOf(faults, instance))
  }

  /** The groups of one batch, committed in the order the hash map yields them. */
  function RunGroups(
    s: State, order: seq<InstanceId>, requests: seq<Request>, faults: map<InstanceId, Fault>, limit: nat): (State, seq<Reply>)
  {
    if order == [] then (s, [])
    else
      var instance := order[|order| - 1];
      var (before, replies) := RunGroups(s, order[..|order| - 1], requests, faults, limit);
      var step := GroupStep(requests, instance, faults);
      (Next(before, step, limit), replies + Replies(GroupOf(requests, instance), CommitResult(before, step, limit)))
  }

  /** The map iteration order: every instance of the batch once. */
  ghost predicate Lists(order: seq<InstanceId>, requests: seq<Request>) {
    && (forall i, j :: 0 <= i < j < |order| ==> order[i] != order[j])
    && (forall r :: r in requests ==> r.event.instanceId in order)
    && (forall instance :: instance in order ==> GroupOf(requests, instance) != [])
  }

  lemma DropNothing(rows: seq<Row>, instance: InstanceId)
    ensures DropOldest(rows, instance, 0) == rows
  {
  }

  /** The insert loop of a transaction: every event is inserted or ignored, and its row read back. */
  method InsertRows(instances: set<InstanceId>, rows: seq<Row>, nextId: nat, events: seq<Event>)
    returns (working: seq<Row>, next: nat, logs: seq<Row>, inserted: nat)
    ensures Db(instances, working, next) == InsertAll(Db(instances, rows, nextId), events)
    ensures |working| == |rows| + inserted
    ensures logs == Logs(Db(instances, rows, nextId), events)
  {
    hide Lookup, StoredLog;
    ghost var db := Db(instances, rows, nextId);
    working, next, logs, inserted := rows, nextId, [], 0;
    for i := 0 to |events|
      invariant Db(instances, working, next) == InsertAll(db, events[..i])
      invariant |working| == |rows| + inserted
      invariant |logs| == i && forall k :: 0 <= k < i ==> logs[k] == StoredLog(db, events, k)
    {
      InitAndLast(events, i);
      var event := events[i];
      if Lookup(working, event.eventId).None? {
        working, next := working + [Row(next, event.eventId, event.instanceId, event.detail)], next + 1;
        inserted := inserted + 1;
      }
      ghost var expected := StoredLog(db, events, i);
      logs := logs + [Lookup(working, event.eventId).value];
    }
    WholeSlice(events);
  }

  /** Splits a batch into its groups. */
  method Grouped(requests: seq<Request>) returns (grouped: map<InstanceId, seq<Request>>)
    ensures forall instance :: instance in grouped ==> grouped[instance] == GroupOf(requests, instance) != []
    ensures forall r :: r in requests ==> r.event.instanceId in grouped
  {
    grouped := map[];
    for i := 0 to |requests|
      invariant forall instance :: GroupOf(requests[..i], instance) == (if instance in grouped then grouped[instance] else [])
      invariant forall instance :: instance in grouped ==> grouped[instance] != []
      invariant forall k :: 0 <= k < i ==> requests[k].event.instanceId in grouped
    {
      InitAndLast(requests, i);
      var instance := requests[i].event.instanceId;
      grouped := grouped[instance := (if instance in grouped then grouped[instance] else []) + [requests[i]]];
    }
    WholeSlice(requests);
  }

  class AuditLogWriter {
    const limit: nat
    var instances: set<InstanceId>
    var rows: seq<Row>
    var nextId: nat
    var counts: map<InstanceId, nat>
    ghost var used: set<InstanceId>

    ghost function Database(): Db
      reads this
    {
      Db(instances, rows, nextId)
    }

    ghost function Current(): State
      reads this
    {
      State(Database(), counts, used)
    }

    /** The service starts over the tables of an earlier run, with an empty cache. */
    constructor (instances: set<InstanceId>, rows: seq<Row>, nextId: nat, limit: nat)
      requires AuditTable.Valid(Db(instances, rows, nextId))
      ensures Current() == State(Db(instances, rows, nextId), map[], instances) && this.limit == limit
      ensures Consistent(Current())
    {
      this.instances, this.rows, this.nextId, this.limit := instances, rows, nextId, limit;
      counts, used := map[], instances;
    }

    /** One transaction. Rows are inserted on a working copy, which the commit installs. */
    method InsertInstanceLogBatch(instance: InstanceId, events: seq<Event>, cached: Option<nat>, fault: Fault)
      returns (result: BatchResult)
      modifies this`rows, this`nextId
      ensures result == ResultOf(old(Database()), instance, events, limit, cached, fault)
      ensures Database() == DbAfter(old(Database()), instance, events, limit, cached, fault)
    {
      hide Lookup, RowsOf, DropOldest, InsertAll, Logs;
      if fault == BeforeLookup {
        return Internal;
      }
      if instance !in instances {
        return InstanceNotFound;
      }
      var currentCount := match cached case Some(count) => count case None => |RowsOf(rows, instance)|;
      var working, next, logs, inserted := InsertRows(instances, rows, nextId, events);
      if fault == AfterLookup {
        return Internal;
      }
      var total := currentCount + inserted;
      var overflow := if total > limit then total - limit else 0;
      DropNothing(working, instance);
      if overflow > 0 {
        working := DropOldest(working, instance, overflow);
      }
      rows, nextId := working, next;
      return Committed(logs, if total < limit then total else limit);
    }

    /** Commits one group and answers its requests. */
    method CommitGroup(requests: seq<Request>, group: seq<Request>, instance: InstanceId, faults: map<InstanceId, Fault>)
      returns (replies: seq<Reply>)
      requires group == GroupOf(requests, instance)
      modifies this`rows, this`nextId, this`counts
      ensures Current() == Next(old(Current()), GroupStep(requests, instance, faults), limit)
      ensures replies == Replies(group, CommitResult(old(Current()), GroupStep(requests, instance, faults), limit))
    {
      hide Logs, CommitBatch;
      var cached := if instance in counts then Some(counts[instance]) else None;
      var fault := if instance in faults then faults[instance] else NoFault;
      var result := InsertInstanceLogBatch(instance, Events(group), cached, fault);
      match result {
        case Committed(_, retained) => counts := counts[instance := retained];
        case InstanceNotFound => counts := counts - {instance};
        case Internal =>
      }
      replies := Replies(group, result);
    }

    /** One turn of the writer loop: group the requests, commit group by group, answer every request. */
    method HandleBatch(requests: seq<Request>, faults: map<InstanceId, Fault>)
      returns (replies: seq<Reply>, ghost order: seq<InstanceId>)
      modifies this`rows, this`nextId, this`counts
      ensures Lists(order, requests)
      ensures (Current(), replies) == RunGroups(old(Current()), order, requests, faults, limit)
    {
      hide GroupOf, Next, Replies, GroupStep, CommitResult;
      var grouped := Grouped(requests);
      replies, order := [], [];
      var remaining := grouped.Keys;
      while remaining != {}
        invariant (Current(), replies) == RunGroups(old(Current()), order, requests, faults, limit)
        invariant remaining <= grouped.Keys
        invariant forall instance :: instance in order <==> instance in grouped.Keys - remaining
        invariant forall i, j :: 0 <= i < j < |order| ==> order[i] != order[j]
        decreases |remaining|
      {
        var instance :| instance in remaining;
        var answers := CommitGroup(requests, grouped[instance], instance, faults);
        RunOneMore(old(Current()), order, requests, faults, limit, instance);
        replies := replies + answers;
        remaining := remaining - {instance};
        assert instance !in order;
        order := order + [instance];
      }
    }

    /** `DELETE FROM instances`, with its cascade. */
    method DeleteInstance(instance: InstanceId)
      modifies this`instances, this`rows
      ensures Current() == Next(old(Current()), Delete(instance), limit)
    {
      instances := instances - {instance};
      rows := Without(rows, instance);
    }

    method CreateInstance(instance: InstanceId)
      requires instance !in used
      modifies this`instances, this`used
      ensures Current() == Next(old(Current()), Create(instance), limit)
    {
      instances := instances + {instance};
      used := used + {instance};
    }
  }

  lemma RunOneMore(
    s: State, order: seq<InstanceId>, requests: seq<Request>, faults: map<InstanceId, Fault>, limit: nat, instance: InstanceId)
    ensures RunGroups(s, order + [instance], requests, faults, limit)
         == var (before, replies) := RunGroups(s, order, requests, faults, limit);
            var step := GroupStep(requests, instance, faults);
            (Next(before, step, limit), replies + Replies(GroupOf(requests, instance), CommitResult(before, step, limit)))
  {
    assert (order + [instance])[..|order|] == order;
  }

  // ---------------------------------------------------------------------------
  // What a turn of the loop promises its requests
  // ---------------------------------------------------------------------------

  function RequestsOf(replies: seq<Reply>): (requests: seq<Request>)
    ensures |requests| == |replies|
  {
    seq(|replies|, i requires 0 <= i < |replies| => replies[i].request)
  }

  /** The requests in the order they are answered. */
  function Regrouped(order: seq<InstanceId>, requests: seq<Request>): seq<Request> {
    if order == [] then []
    else Regrouped(order[..|order| - 1], requests) + GroupOf(requests, order[|order| - 1])
  }

  lemma {:induction false} AnsweredInGroups(
    s: State, order: seq<InstanceId>, requests: seq<Request>, faults: map<InstanceId, Fault>, limit: nat)
    ensures RequestsOf(RunGroups(s, order, requests, faults, limit).1) == Regrouped(order, requests)
  {
    hide GroupOf, Next, CommitResult;
    if order != [] {
      AnsweredInGroups(s, order[..|order| - 1], requests, faults, limit);
    }
  }

  lemma {:induction false} RegroupedGrows(order: seq<InstanceId>, requests: seq<Request>, last: Request)
    requires forall i, j :: 0 <= i < j < |order| ==> order[i] != order[j]
    ensures multiset(Regrouped(order, requests + [last]))
         == multiset(Regrouped(order, requests)) + (if last.event.instanceId in order then multiset{last} else multiset{})
  {
    if order != [] {
      var init, instance := order[..|order| - 1], order[|order| - 1];
      RegroupedGrows(init, requests, last);
      assert order == init + [instance];
      assert (requests + [last])[..|requests|] == requests;
    }
  }

  lemma {:induction false} NoRequests(order: seq<InstanceId>)
    ensures Regrouped(order, []) == []
  {
    if order != [] {
      NoRequests(order[..|order| - 1]);
    }
  }

  lemma {:induction false} RegroupedIsPermutation(order: seq<InstanceId>, requests: seq<Request>)
    requires forall i, j :: 0 <= i < j < |order| ==> order[i] != order[j]
    requires forall k :: 0 <= k < |requests| ==> requests[k].event.instanceId in order
    ensures multiset(Regrouped(order, requests)) == multiset(requests)
  {
    if requests == [] {
      NoRequests(order);
    } else {
      var init, last := requests[..|requests| - 1], requests[|requests| - 1];
      RegroupedIsPermutation(order, init);
      assert requests == init + [last];
      RegroupedGrows(order, init, last);
    }
  }

  /** Every request of a batch is answered exactly once. */
  lemma EveryRequestIsAnsweredOnce(
    s: State, order: seq<InstanceId>, requests: seq<Request>, faults: map<InstanceId, Fault>, limit: nat)
    requires Lists(order, requests)
    ensures multiset(RequestsOf(RunGroups(s, order, requests, faults, limit).1)) == multiset(requests)
  {
    hide GroupOf, RunGroups, Regrouped;
    AnsweredInGroups(s, order, requests, faults, limit);
    RegroupedIsPermutation(order, requests);
  }

  /** The answer a request deserves, whatever the other groups of its batch meet. */
  ghost predicate Deserved(reply: Reply, instances: set<InstanceId>, faults: map<InstanceId, Fault>) {
    var fault := FaultOf(faults, reply.request.event.instanceId);
    var live := reply.request.event.instanceId in instances;
    match reply.outcome
    case Stored(row) => fault == NoFault && live && row.eventId == reply.request.event.eventId
    case NotFound => fault != BeforeLookup && !live
    case Failed => fault == BeforeLookup || (fault == AfterLookup && live)
  }

  /** A missing instance or a failed transaction affects only the requests of its own group; a stored row is the event's own. */
  lemma {:induction false} EveryReplyIsDeserved(
    s: State, order: seq<InstanceId>, requests: seq<Request>, faults: map<InstanceId, Fault>, limit: nat)
    ensures RunGroups(s, order, requests, faults, limit).0.db.instances == s.db.instances
    ensures forall reply :: reply in RunGroups(s, order, requests, faults, limit).1 ==> Deserved(reply, s.db.instances, faults)
  {
    hide GroupOf, CommitBatch;
    if order != [] {
      var init, instance := order[..|order| - 1], order[|order| - 1];
      EveryReplyIsDeserved(s, init, requests, faults, limit);
      var before := RunGroups(s, init, requests, faults, limit).0;
      var group, step := GroupOf(requests, instance), GroupStep(requests, instance, faults);
      GroupIsDeserved(before, group, instance, faults, limit);
      CommitKeepsInstances(before.db, instance, step.events, limit, Cached(before, instance));
    }
  }

  lemma {:induction false} CommitKeepsInstances(db: Db, instance: InstanceId, events: seq<Event>, limit: nat, cached: Option<nat>)
    ensures CommitBatch(db, instance, events, limit, cached).0.instances == db.instances
  {
    InsertKeepsInstances(db, events);
  }

  lemma {:induction false} InsertKeepsInstances(db: Db, events: seq<Event>)
    ensures InsertAll(db, events).instances == db.instances
  {
    if events != [] {
      InsertKeepsInstances(db, events[..|events| - 1]);
    }
  }

  lemma GroupIsDeserved(before: State, group: seq<Request>, instance: InstanceId, faults: map<InstanceId, Fault>, limit: nat)
    requires forall i :: 0 <= i < |group| ==> group[i].event.instanceId == instance
    ensures var result := CommitResult(before, Commit(instance, Events(group), FaultOf(faults, instance)), limit);
            forall reply :: reply in Replies(group, result) ==> Deserved(reply, before.db.instances, faults)
  {
    hide InsertAll, Lookup;
  }

  /** A batch is at most 128 requests and the limit at least 10000, so a row it stored newly is still there afterwards. */
  lemma NewRowsOutliveTheirCommit(
    s: State, requests: seq<Request>, instance: InstanceId, faults: map<InstanceId, Fault>, configured: Option<nat>, row: Row)
    requires Consistent(s) && instance in s.db.instances && FaultOf(faults, instance) == NoFault
    requires |requests| <= 128
    requires var events := Events(GroupOf(requests, instance));
             |s.db.rows| <= |InsertAll(s.db, events).rows| && row in Added(s.db, events)
    ensures row in Next(s, GroupStep(requests, instance, faults), MaxPerInstance(configured)).db.rows
  {
    hide InsertAll, RowsOf, Valid;
    var events := Events(GroupOf(requests, instance));
    GroupIsShort(requests, instance);
    AddedRowsSurvive(s.db, instance, events, MaxPerInstance(configured), Cached(s, instance), row);
  }

  lemma {:induction false} GroupIsShort(requests: seq<Request>, instance: InstanceId)
    ensures |GroupOf(requests, instance)| <= |requests|
  {
    if requests != [] {
      GroupIsShort(requests[..|requests| - 1], instance);
    }
  }

  /** A whole turn is a run of commit steps, so it keeps the cache in agreement with the table. */
  lemma {:induction false} TurnIsRun(
    s: State, order: seq<InstanceId>, requests: seq<Request>, faults: map<InstanceId, Fault>, limit: nat)
    requires Consistent(s) && forall instance :: instance in order ==> GroupOf(requests, instance) != []
    ensures Consistent(RunGroups(s, order, requests, faults, limit).0)
  {
    hide Consistent, Next, GroupOf;
    if order != [] {
      var init, instance := order[..|order| - 1], order[|order| - 1];
      assert instance in order;
      TurnIsRun(s, init, requests, faults, limit);
      StepIsConsistent(RunGroups(s, init, requests, faults, limit).0, GroupStep(requests, instance, faults), limit);
    }
  }
}
