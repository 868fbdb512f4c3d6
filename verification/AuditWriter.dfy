/**
 The audit log writer: one task takes queued requests in batches, groups them per instance, commits each group in
 its own transaction and remembers how many rows every instance keeps. Instances are created and deleted by other
 tasks between any two transactions.
 */
module AuditWriter {
  import opened Wrappers
  import opened Sequences
  import opened AuditTable

  const DEFAULT_MAX_PER_INSTANCE: nat := 10_000

  /** The retention limit: a configured number counts only from the default upwards. */
  function MaxPerInstance(configured: Option<nat>): (limit: nat)
    ensures limit >= 10_000
    ensures configured.Some? && configured.value >= 10_000 ==> limit == configured.value
    ensures configured.None? || configured.value < 10_000 ==> limit == 10_000
  {
    match configured
    case Some(n) => if n >= DEFAULT_MAX_PER_INSTANCE then n else DEFAULT_MAX_PER_INSTANCE
    case None => DEFAULT_MAX_PER_INSTANCE
  }

  /** Where a transaction fails, if it does: before or after it looked the instance up. A failed one is rolled back. */
  datatype Fault = NoFault | BeforeLookup | AfterLookup

  datatype BatchResult = Committed(logs: seq<Row>, retained: nat) | InstanceNotFound | Internal

  // ---------------------------------------------------------------------------
  // One transaction
  // ---------------------------------------------------------------------------

  /** The row read back for an event right after its insert. */
  function StoredLog(db: Db, events: seq<Event>, k: nat): (row: Row)
    requires k < |events|
    ensures row.eventId == events[k].eventId
    ensures Lookup(InsertAll(db, events[..k + 1]).rows, events[k].eventId) == Some(row)
  {
    InsertAllStores(db, events, k);
    Lookup(InsertAll(db, events).rows, events[k].eventId).value
  }

  function Logs(db: Db, events: seq<Event>): (logs: seq<Row>)
    ensures |logs| == |events|
  {
    seq(|events|, k requires 0 <= k < |events| => StoredLog(db, events, k))
  }

  function ResultOf(
    db: Db, instance: InstanceId, events: seq<Event>, limit: nat, cached: Option<nat>, fault: Fault): BatchResult
  {
    if fault == BeforeLookup then Internal
    else if instance !in db.instances then InstanceNotFound
    else if fault == AfterLookup then Internal
    else Committed(Logs(db, events), CommitBatch(db, instance, events, limit, cached).1)
  }

  function DbAfter(
    db: Db, instance: InstanceId, events: seq<Event>, limit: nat, cached: Option<nat>, fault: Fault): Db
  {
    if fault == NoFault && instance in db.instances then CommitBatch(db, instance, events, limit, cached).0 else db
  }

  // ---------------------------------------------------------------------------
  // Runs of the writer among instance creations and deletions
  // ---------------------------------------------------------------------------

  /** `used` remembers every id an instance ever had; ids are never reused. */
  datatype State = State(db: Db, counts: map<InstanceId, nat>, used: set<InstanceId>)

  datatype Step =
    | Commit(instance: InstanceId, events: seq<Event>, fault: Fault)
    | Delete(instance: InstanceId)
    | Create(instance: InstanceId)

  function Cached(s: State, instance: InstanceId): Option<nat> {
    if instance in s.counts then Some(s.counts[instance]) else None
  }

  function CommitResult(s: State, step: Step, limit: nat): BatchResult
    requires step.Commit?
  {
    ResultOf(s.db, step.instance, step.events, limit, Cached(s, step.instance), step.fault)
  }

  function CountsAfter(counts: map<InstanceId, nat>, instance: InstanceId, result: BatchResult): map<InstanceId, nat> {
    match result
    case Committed(_, retained) => counts[instance := retained]
    case InstanceNotFound => counts - {instance}
    case Internal => counts
  }

  function Next(s: State, step: Step, limit: nat): State {
    match step
    case Commit(instance, events, fault) =>
      s.(db := DbAfter(s.db, instance, events, limit, Cached(s, instance), fault),
         counts := CountsAfter(s.counts, instance, CommitResult(s, step, limit)))
    case Delete(instance) =>
      s.(db := s.db.(instances := s.db.instances - {instance}, rows := Without(s.db.rows, instance)))
    case Create(instance) =>
      s.(db := s.db.(instances := s.db.instances + {instance}), used := s.used + {instance})
  }

  predicate Enabled(s: State, step: Step) {
    match step
    case Commit(instance, events, _) => events != [] && AllFor(events, instance)
    case Delete(_) => true
    case Create(instance) => instance !in s.used
  }

  function After(s: State, steps: seq<Step>, limit: nat): State {
    if steps == [] then s else Next(After(s, steps[..|steps| - 1], limit), steps[|steps| - 1], limit)
  }

  predicate Legal(s: State, steps: seq<Step>, limit: nat) {
    forall k :: 0 <= k < |steps| ==> Enabled(After(s, steps[..k], limit), steps[k])
  }

  /** Every remembered count of a live instance is its real row count. */
  ghost predicate Consistent(s: State) {
    && Valid(s.db)
    && s.db.instances <= s.used
    && s.counts.Keys <= s.used
    && forall instance :: instance in s.counts && instance in s.db.instances ==>
         s.counts[instance] == |RowsOf(s.db.rows, instance)|
  }

  /**
   The cache after a commit: of a live instance the real row count, of a missing one nothing, so that the next commit
   does not count again nor trust a count of rows long gone; a failed transaction changes nothing.
   */
  lemma CacheFollowsCommit(s: State, instance: InstanceId, events: seq<Event>, fault: Fault, limit: nat, other: InstanceId)
    requires Consistent(s) && AllFor(events, instance)
    ensures var t, live := Next(s, Commit(instance, events, fault), limit), instance in s.db.instances;
            && (fault == NoFault && live ==> instance in t.counts && t.counts[instance] == |RowsOf(t.db.rows, instance)|)
            && (fault != BeforeLookup && !live ==> instance !in t.counts && t.db == s.db)
            && (fault == BeforeLookup || (fault == AfterLookup && live) ==> t == s)
            && (other != instance ==> Cached(t, other) == Cached(s, other))
  {
    hide RowsOf, CommitBatch, Valid, Logs, InsertAll;
    if fault == NoFault && instance in s.db.instances {
      CommitKeepsNewest(s.db, instance, events, limit, Cached(s, instance), instance);
    }
  }

  lemma CommitIsConsistent(s: State, step: Step, limit: nat)
    requires Consistent(s) && step.Commit? && AllFor(step.events, step.instance)
    ensures Consistent(Next(s, step, limit))
  {
    hide RowsOf, CommitBatch, Valid, Logs, InsertAll;
    if step.fault == NoFault && step.instance in s.db.instances {
      forall other: InstanceId
        ensures other != step.instance ==> RowsOf(Next(s, step, limit).db.rows, other) == RowsOf(s.db.rows, other)
        ensures Valid(Next(s, step, limit).db)
      {
        CommitKeepsNewest(s.db, step.instance, step.events, limit, Cached(s, step.instance), other);
      }
      CommitKeepsNewest(s.db, step.instance, step.events, limit, Cached(s, step.instance), step.instance);
    }
  }

  lemma DeleteIsConsistent(s: State, instance: InstanceId, limit: nat)
    requires Consistent(s)
    ensures Consistent(Next(s, Delete(instance), limit))
  {
    hide RowsOf, Without;
    var after := Next(s, Delete(instance), limit);
    MatchIds(s.db);
    WithoutKeeps(s.db.rows, instance);
    StaysValid(s.db, after.db.rows, after.db.instances);
    forall other | other in after.counts && other in after.db.instances
      ensures after.counts[other] == |RowsOf(after.db.rows, other)|
    {
      WithoutRows(s.db.rows, instance, other);
    }
  }

  lemma CreateIsConsistent(s: State, instance: InstanceId, limit: nat)
    requires Consistent(s) && instance !in s.used
    ensures Consistent(Next(s, Create(instance), limit))
  {
    hide RowsOf;
  }

  lemma StepIsConsistent(s: State, step: Step, limit: nat)
    requires Consistent(s) && Enabled(s, step)
    ensures Consistent(Next(s, step, limit))
  {
    hide Consistent, Next;
    match step
    case Commit(_, _, _) => CommitIsConsistent(s, step, limit);
    case Delete(instance) => DeleteIsConsistent(s, instance, limit);
    case Create(instance) => CreateIsConsistent(s, instance, limit);
  }

  /** In every reachable state the cache agrees with the table. */
  lemma {:induction false} RunIsConsistent(s: State, steps: seq<Step>, limit: nat)
    requires Consistent(s) && Legal(s, steps, limit)
    ensures Consistent(After(s, steps, limit))
  {
    hide Consistent, Next;
    if steps != [] {
      LegalInit(s, steps, limit);
      var k := |steps| - 1;
      RunIsConsistent(s, steps[..k], limit);
      StepIsConsistent(After(s, steps[..k], limit), steps[k], limit);
    }
  }

  lemma LegalInit(s: State, steps: seq<Step>, limit: nat)
    requires steps != [] && Legal(s, steps, limit)
    ensures Legal(s, steps[..|steps| - 1], limit)
    ensures Enabled(After(s, steps[..|steps| - 1], limit), steps[|steps| - 1])
  {
    hide After, Enabled;
    var init := steps[..|steps| - 1];
    forall k | 0 <= k < |init|
      ensures Enabled(After(s, init[..k], limit), init[k])
    {
      assert init[..k] == steps[..k];
    }
  }

  // ---------------------------------------------------------------------------
  // Batching does not show in the table
  // ---------------------------------------------------------------------------

  function Contents(s: State, instance: InstanceId): seq<Event> {
    EventsOf(RowsOf(s.db.rows, instance))
  }

  /** The events written for an instance over a run, in arrival order. */
  function Arrived(steps: seq<Step>, instance: InstanceId): seq<Event> {
    if steps == [] then []
    else Arrived(steps[..|steps| - 1], instance) + ArrivedIn(steps[|steps| - 1], instance)
  }

  function ArrivedIn(step: Step, instance: InstanceId): seq<Event> {
    if step.Commit? && step.instance == instance && step.fault == NoFault then step.events else []
  }

  /** All events offered over a run, for any instance. */
  function Offered(steps: seq<Step>): seq<Event> {
    if steps == [] then []
    else Offered(steps[..|steps| - 1]) + (if steps[|steps| - 1].Commit? then steps[|steps| - 1].events else [])
  }

  /** Each row of a reached table was there at the start or records an offered event. */
  ghost predicate Known(rows: seq<Row>, start: seq<Row>, offered: seq<Event>) {
    forall row :: row in rows ==> row in start || EventOf(row) in offered
  }

  lemma {:induction false} InsertAllKnown(db: Db, events: seq<Event>)
    ensures Known(InsertAll(db, events).rows, db.rows, events)
  {
    hide Lookup;
    if events != [] {
      var k := |events| - 1;
      InsertAllKnown(db, events[..k]);
      assert events == events[..k] + [events[k]];
    }
  }

  lemma StepKnown(s: State, step: Step, limit: nat)
    ensures Known(Next(s, step, limit).db.rows, s.db.rows, if step.Commit? then step.events else [])
  {
    hide InsertAll, DropOldest, Without;
    match step
    case Commit(instance, events, fault) =>
      InsertAllKnown(s.db, events);
      if fault == NoFault && instance in s.db.instances {
        CommitDropsFrom(s.db, instance, events, limit, Cached(s, instance));
      }
    case Delete(instance) => WithoutKeeps(s.db.rows, instance);
    case Create(_) =>
  }

  lemma CommitDropsFrom(db: Db, instance: InstanceId, events: seq<Event>, limit: nat, cached: Option<nat>)
    ensures forall row :: row in CommitBatch(db, instance, events, limit, cached).0.rows ==> row in InsertAll(db, events).rows
  {
    hide InsertAll, DropOldest;
    forall count: nat
      ensures forall row :: row in DropOldest(InsertAll(db, events).rows, instance, count) ==> row in InsertAll(db, events).rows
    {
      DropOldestKeeps(InsertAll(db, events).rows, instance, count);
    }
  }

  lemma KnownCompose(rows: seq<Row>, middle: seq<Row>, start: seq<Row>, first: seq<Event>, second: seq<Event>)
    requires Known(rows, middle, second) && Known(middle, start, first)
    ensures Known(rows, start, first + second)
  {
  }

  lemma {:induction false} RunKnown(s: State, steps: seq<Step>, limit: nat)
    ensures Known(After(s, steps, limit).db.rows, s.db.rows, Offered(steps))
  {
    hide Known, Next;
    if steps == [] {
      NothingNew(s.db.rows);
    } else {
      var k := |steps| - 1;
      RunKnown(s, steps[..k], limit);
      var before := After(s, steps[..k], limit);
      StepKnown(before, steps[k], limit);
      KnownCompose(After(s, steps, limit).db.rows, before.db.rows, s.db.rows, Offered(steps[..k]),
                   if steps[k].Commit? then steps[k].events else []);
    }
  }

  lemma NothingNew(rows: seq<Row>)
    ensures Known(rows, rows, [])
  {
  }

  /** What is still fresh for the last part of a run whose offered events were all fresh. */
  lemma FreshRest(start: Db, reached: Db, first: seq<Event>, second: seq<Event>)
    requires Fresh(start, first + second) && Known(reached.rows, start.rows, first)
    ensures Fresh(start, first) && Fresh(reached, second)
  {
    var all := first + second;
    forall i, j | 0 <= i < j < |first|
      ensures first[i].eventId != first[j].eventId
    {
      assert all[i].eventId != all[j].eventId;
    }
    forall i, j | 0 <= i < j < |second|
      ensures second[i].eventId != second[j].eventId
    {
      assert all[|first| + i].eventId != all[|first| + j].eventId;
    }
    forall i, row | 0 <= i < |first| && row in start.rows
      ensures first[i].eventId != row.eventId
    {
      assert all[i].eventId != row.eventId;
    }
    forall i, row | 0 <= i < |second| && row in reached.rows
      ensures second[i].eventId != row.eventId
    {
      assert all[|first| + i] == second[i];
      if row !in start.rows {
        var k :| 0 <= k < |first| && first[k] == EventOf(row);
        assert all[k] == first[k];
      }
    }
  }

  lemma EventsOfConcat(a: seq<Row>, b: seq<Row>)
    ensures EventsOf(a + b) == EventsOf(a) + EventsOf(b)
  {
  }

  lemma EventsOfNewest(rows: seq<Row>, limit: nat)
    ensures EventsOf(Newest(rows, limit)) == Newest(EventsOf(rows), limit)
  {
  }

  /** One step's effect on the contents of a live instance, for fresh events. */
  lemma StepContents(s: State, step: Step, limit: nat, instance: InstanceId)
    requires Consistent(s) && Enabled(s, step) && instance in s.db.instances && step != Delete(instance)
    requires step.Commit? ==> Fresh(s.db, step.events)
    ensures instance in Next(s, step, limit).db.instances
    ensures Contents(Next(s, step, limit), instance)
         == if step.Commit? && step.instance == instance && step.fault == NoFault
            then Newest(Contents(s, instance) + step.events, limit) else Contents(s, instance)
  {
    hide RowsOf, CommitBatch, InsertAll, Without, Valid, Newest;
    match step
    case Commit(target, events, fault) =>
      if fault == NoFault && target in s.db.instances {
        CommitKeepsNewest(s.db, target, events, limit, Cached(s, target), instance);
        FreshAreAdded(s.db, events);
        EventsOfRowsFor(s.db.nextId, events);
        EventsOfNewest(RowsOf(s.db.rows, target) + Added(s.db, events), limit);
        EventsOfConcat(RowsOf(s.db.rows, target), Added(s.db, events));
      }
    case Delete(target) => WithoutRows(s.db.rows, target, instance);
    case Create(_) =>
  }

  /**
   For fresh event ids, the contents of an instance after any run are the newest `limit` of what it had and what
   arrived for it. How the events were batched, what other instances did and which other transactions failed
   does not show.
   */
  lemma {:induction false} BatchingDoesNotShow(s: State, steps: seq<Step>, limit: nat, instance: InstanceId)
    requires Consistent(s) && Legal(s, steps, limit) && Fresh(s.db, Offered(steps))
    requires instance in s.db.instances && Delete(instance) !in steps
    ensures instance in After(s, steps, limit).db.instances
    ensures Contents(After(s, steps, limit), instance)
         == if Arrived(steps, instance) == [] then Contents(s, instance)
            else Newest(Contents(s, instance) + Arrived(steps, instance), limit)
  {
    hide Consistent, Next, Fresh, Known, Newest, Contents;
    if steps != [] {
      var k := |steps| - 1;
      var init, last := steps[..k], steps[k];
      LegalInit(s, steps, limit);
      RunKnown(s, init, limit);
      var before := After(s, init, limit);
      var events := if last.Commit? then last.events else [];
      FreshRest(s.db, before.db, Offered(init), events);
      RunIsConsistent(s, init, limit);
      BatchingDoesNotShow(s, init, limit, instance);
      StepContents(before, last, limit, instance);
      NewestGrows(Contents(s, instance), Arrived(init, instance), ArrivedIn(last, instance), limit);
    }
  }

  lemma NewestGrows<T>(a: seq<T>, b: seq<T>, c: seq<T>, limit: nat)
    ensures Newest(Newest(a + b, limit) + c, limit) == Newest(a + (b + c), limit)
    ensures b + [] == b && [] + c == c
  {
    NewestOfNewest(a + b, c, limit);
    Associative(a, b, c);
  }

  /** Two runs that write the same events for an instance leave it with the same contents. */
  lemma SameArrivalsSameContents(s: State, steps: seq<Step>, others: seq<Step>, limit: nat, instance: InstanceId)
    requires Consistent(s) && instance in s.db.instances
    requires Legal(s, steps, limit) && Fresh(s.db, Offered(steps)) && Delete(instance) !in steps
    requires Legal(s, others, limit) && Fresh(s.db, Offered(others)) && Delete(instance) !in others
    requires Arrived(steps, instance) == Arrived(others, instance)
    ensures Contents(After(s, steps, limit), instance) == Contents(After(s, others, limit), instance)
  {
    BatchingDoesNotShow(s, steps, limit, instance);
    BatchingDoesNotShow(s, others, limit, instance);
  }

  /** The run that writes the same events one at a time. */
  function OneByOne(instance: InstanceId, events: seq<Event>): (steps: seq<Step>)
    ensures |steps| == |events|
  {
    seq(|events|, i requires 0 <= i < |events| => Commit(instance, [events[i]], NoFault))
  }

  lemma {:induction false} OneByOneArrives(instance: InstanceId, events: seq<Event>)
    ensures Arrived(OneByOne(instance, events), instance) == events && Offered(OneByOne(instance, events)) == events
  {
    if events != [] {
      var init := events[..|events| - 1];
      OneByOneArrives(instance, init);
      assert OneByOne(instance, events)[..|events| - 1] == OneByOne(instance, init);
      assert events == init + [events[|events| - 1]];
    }
  }

  /** A batch of fresh events leaves an instance as if each had been inserted and pruned for on its own. */
  lemma BatchEqualsOneByOne(s: State, instance: InstanceId, events: seq<Event>, limit: nat)
    requires Consistent(s) && instance in s.db.instances
    requires events != [] && AllFor(events, instance) && Fresh(s.db, events)
    ensures Contents(Next(s, Commit(instance, events, NoFault), limit), instance)
         == Contents(After(s, OneByOne(instance, events), limit), instance)
  {
    hide Next, Fresh, Contents, Consistent;
    var batch := [Commit(instance, events, NoFault)];
    assert batch[..0] == [] && After(s, [], limit) == s;
    assert [] + events == events;
    OneByOneArrives(instance, events);
    SameArrivalsSameContents(s, batch, OneByOne(instance, events), limit, instance);
  }

  lemma RowsOfOrdered(db: Db, instance: InstanceId)
    requires Valid(db)
    ensures Ordered(RowsOf(db.rows, instance))
    ensures forall row :: row in RowsOf(db.rows, instance) ==> row.id < db.nextId
  {
    RowsOfKeepsOrder(db.rows, instance);
    forall row | row in RowsOf(db.rows, instance)
      ensures row.id < db.nextId
    {
      RowsOfMember(db.rows, instance, row);
    }
  }

  lemma {:induction false} RowsOfKeepsOrder(rows: seq<Row>, instance: InstanceId)
    requires Ordered(rows)
    ensures Ordered(RowsOf(rows, instance))
  {
    hide Ordered;
    if rows != [] {
      OrderedTail(rows);
      RowsOfKeepsOrder(rows[1..], instance);
      forall row | row in RowsOf(rows[1..], instance)
        ensures row in rows[1..]
      {
        RowsOfMember(rows[1..], instance, row);
      }
      OrderedCons(rows, RowsOf(rows[1..], instance));
    }
  }

  // ---------------------------------------------------------------------------
  // Retries
  // ---------------------------------------------------------------------------

  /** Rows committed for an instance over a run; repeats of stored events do not count. */
  function NewRows(s: State, steps: seq<Step>, limit: nat, instance: InstanceId): nat {
    if steps == [] then 0
    else
      var init, last := steps[..|steps| - 1], steps[|steps| - 1];
      NewRows(s, init, limit, instance) + NewRowsIn(After(s, init, limit).db, last, instance)
  }

  function NewRowsIn(db: Db, step: Step, instance: InstanceId): nat {
    if step.Commit? && step.instance == instance && step.fault == NoFault && instance in db.instances
       && |InsertAll(db, step.events).rows| > |db.rows|
    then |InsertAll(db, step.events).rows| - |db.rows| else 0
  }

  /** `row` has exactly `newer` rows of its instance after it. */
  predicate HasNewer(rows: seq<Row>, row: Row, newer: nat) {
    newer < |rows| && rows[|rows| - 1 - newer] == row
  }

  lemma NewestKeepsPlace(rows: seq<Row>, added: seq<Row>, limit: nat, row: Row, newer: nat)
    requires HasNewer(rows, row, newer) && newer + |added| < limit
    ensures HasNewer(Newest(rows + added, limit), row, newer + |added|)
  {
  }

  lemma StepKeepsRow(s: State, step: Step, limit: nat, row: Row, newer: nat)
    requires Consistent(s) && Enabled(s, step) && row.instanceId in s.db.instances && step != Delete(row.instanceId)
    requires HasNewer(RowsOf(s.db.rows, row.instanceId), row, newer)
    requires newer + NewRowsIn(s.db, step, row.instanceId) < limit
    ensures row.instanceId in Next(s, step, limit).db.instances
    ensures HasNewer(RowsOf(Next(s, step, limit).db.rows, row.instanceId), row, newer + NewRowsIn(s.db, step, row.instanceId))
  {
    hide RowsOf, CommitBatch, InsertAll, Without, Valid, Newest, HasNewer;
    match step
    case Commit(target, events, fault) =>
      if fault == NoFault && target in s.db.instances {
        CommitKeepsNewest(s.db, target, events, limit, Cached(s, target), row.instanceId);
        if target == row.instanceId {
          NewestKeepsPlace(RowsOf(s.db.rows, target), Added(s.db, events), limit, row, newer);
        }
      }
    case Delete(target) => WithoutRows(s.db.rows, target, row.instanceId);
    case Create(_) =>
  }

  /** A row stays while fewer than `limit` newer rows of its instance are committed, whatever else happens. */
  lemma {:induction false} RowSurvives(s: State, steps: seq<Step>, limit: nat, row: Row, newer: nat)
    requires Consistent(s) && Legal(s, steps, limit)
    requires row.instanceId in s.db.instances && Delete(row.instanceId) !in steps
    requires HasNewer(RowsOf(s.db.rows, row.instanceId), row, newer)
    requires newer + NewRows(s, steps, limit, row.instanceId) < limit
    ensures row.instanceId in After(s, steps, limit).db.instances
    ensures HasNewer(RowsOf(After(s, steps, limit).db.rows, row.instanceId), row, newer + NewRows(s, steps, limit, row.instanceId))
  {
    hide Consistent, Next, HasNewer, RowsOf, Enabled, NewRowsIn;
    if steps != [] {
      var k := |steps| - 1;
      LegalInit(s, steps, limit);
      RowSurvives(s, steps[..k], limit, row, newer);
      RunIsConsistent(s, steps[..k], limit);
      StepKeepsRow(After(s, steps[..k], limit), steps[k], limit, row, newer + NewRows(s, steps[..k], limit, row.instanceId));
    }
  }

  /** The other half: the step that brings the newer rows to the limit removes the row. */
  lemma StepDropsRow(s: State, step: Step, limit: nat, row: Row, newer: nat)
    requires Consistent(s) && Enabled(s, step) && row.instanceId in s.db.instances && newer < limit
    requires HasNewer(RowsOf(s.db.rows, row.instanceId), row, newer)
    requires newer + NewRowsIn(s.db, step, row.instanceId) >= limit
    ensures row !in Next(s, step, limit).db.rows
  {
    hide RowsOf, CommitBatch, InsertAll, Valid;
    var rows, added := RowsOf(s.db.rows, row.instanceId), Added(s.db, step.events);
    var after := Next(s, step, limit);
    CommitKeepsNewest(s.db, step.instance, step.events, limit, Cached(s, step.instance), step.instance);
    InsertAllAppends(s.db, step.events, step.instance);
    RowsOfOrdered(s.db, row.instanceId);
    RowsOfMember(after.db.rows, row.instanceId, row);
    NotAmongNewest(rows, added, limit, row, newer, s.db.nextId);
  }

  lemma NotAmongNewest(rows: seq<Row>, added: seq<Row>, limit: nat, row: Row, newer: nat, nextId: nat)
    requires Ordered(rows) && HasNewer(rows, row, newer) && row.id < nextId
    requires forall i :: 0 <= i < |added| ==> added[i].id >= nextId
    requires newer + |added| >= limit
    ensures row !in Newest(rows + added, limit)
  {
  }

  lemma StepKeepsAbsent(s: State, step: Step, limit: nat, row: Row)
    requires Consistent(s) && Enabled(s, step) && row !in s.db.rows && row.id < s.db.nextId
    ensures row !in Next(s, step, limit).db.rows && row.id < Next(s, step, limit).db.nextId
  {
    hide RowsOf, CommitBatch, InsertAll, Valid, Without;
    match step
    case Commit(target, events, fault) =>
      if fault == NoFault && target in s.db.instances {
        InsertAllAppends(s.db, events, target);
        CommitDropsFrom(s.db, target, events, limit, Cached(s, target));
        CommitKeepsNewest(s.db, target, events, limit, Cached(s, target), target);
        SplitAt(InsertAll(s.db, events).rows, |s.db.rows|);
      }
    case Delete(target) => WithoutKeeps(s.db.rows, target);
    case Create(_) =>
  }

  /** Exactly when: a stored row is still there after a run if and only if fewer than `limit` rows are newer than it. */
  lemma {:induction false} RowStaysExactly(s: State, steps: seq<Step>, limit: nat, row: Row, newer: nat)
    requires Consistent(s) && Legal(s, steps, limit) && newer < limit
    requires row.instanceId in s.db.instances && Delete(row.instanceId) !in steps
    requires HasNewer(RowsOf(s.db.rows, row.instanceId), row, newer)
    ensures row in After(s, steps, limit).db.rows <==> newer + NewRows(s, steps, limit, row.instanceId) < limit
    ensures row.id < After(s, steps, limit).db.nextId
  {
    hide Consistent, Next, HasNewer, RowsOf, Enabled, NewRowsIn;
    if steps == [] {
      StartsStored(s, row, newer);
    } else {
      var k := |steps| - 1;
      var before, soFar := After(s, steps[..k], limit), newer + NewRows(s, steps[..k], limit, row.instanceId);
      LegalInit(s, steps, limit);
      RowStaysExactly(s, steps[..k], limit, row, newer);
      RunIsConsistent(s, steps[..k], limit);
      if soFar >= limit {
        StepKeepsAbsent(before, steps[k], limit, row);
      } else {
        RowSurvives(s, steps[..k], limit, row, newer);
        if soFar + NewRowsIn(before.db, steps[k], row.instanceId) < limit {
          StepKeepsRow(before, steps[k], limit, row, soFar);
          CommitIsLater(before, steps[k], limit, row, soFar + NewRowsIn(before.db, steps[k], row.instanceId));
        } else {
          StepDropsRow(before, steps[k], limit, row, soFar);
          IdsGrow(before, steps[k], limit);
        }
      }
    }
  }

  lemma StartsStored(s: State, row: Row, newer: nat)
    requires Consistent(s) && HasNewer(RowsOf(s.db.rows, row.instanceId), row, newer)
    ensures row in s.db.rows && row.id < s.db.nextId
  {
    hide RowsOf;
    assert row in RowsOf(s.db.rows, row.instanceId);
    RowsOfMember(s.db.rows, row.instanceId, row);
  }

  lemma IdsGrow(s: State, step: Step, limit: nat)
    requires Consistent(s) && Enabled(s, step)
    ensures s.db.nextId <= Next(s, step, limit).db.nextId
  {
    hide RowsOf, InsertAll, Valid;
    if step.Commit? && step.instance in s.db.instances {
      InsertAllAppends(s.db, step.events, step.instance);
    }
  }

  lemma CommitIsLater(s: State, step: Step, limit: nat, row: Row, newer: nat)
    requires Consistent(s) && Enabled(s, step)
    requires HasNewer(RowsOf(Next(s, step, limit).db.rows, row.instanceId), row, newer)
    ensures row in Next(s, step, limit).db.rows && row.id < Next(s, step, limit).db.nextId
  {
    hide RowsOf, Next, Consistent, Enabled;
    StepIsConsistent(s, step, limit);
    StartsStored(Next(s, step, limit), row, newer);
  }

  /** A retry that comes before `limit` newer rows is answered with the original row, in whatever batch it arrives. */
  lemma RetryReturnsOriginal(
    s: State, steps: seq<Step>, limit: nat, row: Row, newer: nat, batch: seq<Event>, k: nat)
    requires Consistent(s) && Legal(s, steps, limit)
    requires row.instanceId in s.db.instances && Delete(row.instanceId) !in steps
    requires HasNewer(RowsOf(s.db.rows, row.instanceId), row, newer)
    requires newer + NewRows(s, steps, limit, row.instanceId) < limit
    requires k < |batch| && batch[k].eventId == row.eventId
    ensures StoredLog(After(s, steps, limit).db, batch, k) == row
  {
    hide Consistent, Next, RowsOf, Enabled, NewRowsIn, NewRows, After, InsertAll, Lookup;
    var db := After(s, steps, limit).db;
    RowSurvives(s, steps, limit, row, newer);
    RunIsConsistent(s, steps, limit);
    assert row in RowsOf(db.rows, row.instanceId);
    RowsOfMember(db.rows, row.instanceId, row);
    StillStored(After(s, steps, limit), row, batch[..k + 1]);
  }

  lemma StillStored(s: State, row: Row, events: seq<Event>)
    requires Consistent(s) && row in s.db.rows
    ensures Lookup(InsertAll(s.db, events).rows, row.eventId) == Some(row)
  {
    LookupFinds(s.db, row);
    InsertsKeep(s.db, row, events);
  }

  lemma {:induction false} InsertsKeep(db: Db, row: Row, events: seq<Event>)
    requires Lookup(db.rows, row.eventId) == Some(row)
    ensures Lookup(InsertAll(db, events).rows, row.eventId) == Some(row)
  {
    hide Lookup;
    if events != [] {
      InsertsKeep(db, row, events[..|events| - 1]);
      LookupGrows(InsertAll(db, events[..|events| - 1]), events[|events| - 1], row.eventId);
    }
  }
}
