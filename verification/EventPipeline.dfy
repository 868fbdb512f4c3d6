/**
 From the engines to the table: the reporters of all engines and the service's writer, in any interleaving. What the
 writer is offered are the events whose posting has begun, as often and in whatever batches they arrive, be it before
 the post is answered or long after it was given up.
 */
module EventPipeline {
  import opened AuditTable
  import R = Reporter
  import W = AuditWriter

  /** The identifiers engine `k` draws, the instance it runs, and what its report `n` says. */
  datatype World = World(
    idOf: (nat, nat) -> EventId, instanceOf: nat -> InstanceId, detailOf: (nat, nat) -> Columns, limit: nat)

  /** No identifier is drawn twice, by one engine or by two. */
  ghost predicate Unique(w: World) {
    forall k: nat, a: nat, l: nat, b: nat :: w.idOf(k, a) == w.idOf(l, b) ==> k == l && a == b
  }

  datatype System = System(engines: seq<R.State>, writer: W.State)

  datatype Step = Launch | Engine(k: nat, step: R.Step) | Writer(part: W.Step)

  /** Report `n` of engine `k` is being posted, or has been. */
  predicate Posting(y: System, k: nat, n: nat) {
    k < |y.engines| && n < |y.engines[k].fates| && R.Started(y.engines[k].fates[n])
  }

  function EventFor(w: World, y: System, k: nat, n: nat): Event
    requires Posting(y, k, n)
  {
    Event(w.idOf(k, y.engines[k].fates[n].eventId), w.instanceOf(k), w.detailOf(k, n))
  }

  predicate IsEventFor(w: World, y: System, e: Event, k: nat, n: nat) {
    Posting(y, k, n) && e == EventFor(w, y, k, n)
  }

  ghost predicate Arrives(w: World, y: System, e: Event) {
    exists k: nat, n: nat :: IsEventFor(w, y, e, k, n)
  }

  ghost predicate Enabled(w: World, y: System, step: Step) {
    match step
    case Launch => true
    case Engine(k, s) => k < |y.engines| && R.Enabled(y.engines[k], s)
    case Writer(s) => W.Enabled(y.writer, s) && (s.Commit? ==> forall e :: e in s.events ==> Arrives(w, y, e))
  }

  ghost function Next(w: World, y: System, step: Step): System
    requires Enabled(w, y, step)
  {
    match step
    case Launch => y.(engines := y.engines + [R.Initial])
    case Engine(k, s) => y.(engines := y.engines[k := R.Next(y.engines[k], s)])
    case Writer(s) => y.(writer := W.Next(y.writer, s, w.limit))
  }

  ghost predicate StepsTo(w: World, y: System, z: System) {
    exists step :: Enabled(w, y, step) && z == Next(w, y, step)
  }

  /** A run starts with no engine and an empty table. */
  ghost predicate IsRun(w: World, systems: seq<System>) {
    && systems != [] && systems[0].engines == []
    && W.Consistent(systems[0].writer) && systems[0].writer.db.rows == []
    && forall i :: 0 < i < |systems| ==> StepsTo(w, systems[i - 1], systems[i])
  }

  ghost predicate Inv(w: World, y: System) {
    && W.Consistent(y.writer)
    && (forall k :: 0 <= k < |y.engines| ==> R.Inv(y.engines[k]))
    && (forall row :: row in y.writer.db.rows ==> Arrives(w, y, EventOf(row)))
  }

  /** A report that is being posted keeps its event id for good. */
  lemma PostingStays(s: R.State, step: R.Step, n: nat)
    requires R.Inv(s) && R.Enabled(s, step) && n < |s.fates| && R.Started(s.fates[n])
    ensures n < |R.Next(s, step).fates| && R.Started(R.Next(s, step).fates[n])
    ensures R.Next(s, step).fates[n].eventId == s.fates[n].eventId
  {
    hide R.Done, R.TasksAgree, R.StartsInOrder, R.Retried, R.Identified, R.PostsAgree;
  }

  lemma ArrivesStays(w: World, y: System, step: Step, e: Event)
    requires Inv(w, y) && Enabled(w, y, step) && Arrives(w, y, e)
    ensures Arrives(w, Next(w, y, step), e)
  {
    hide R.Next, R.Enabled, R.Inv, W.Next, W.Consistent;
    var k: nat, n: nat :| IsEventFor(w, y, e, k, n);
    if step.Engine? && step.k == k {
      PostingStays(y.engines[k], step.step, n);
    }
    assert IsEventFor(w, Next(w, y, step), e, k, n);
  }

  lemma InvStep(w: World, y: System, step: Step)
    requires Inv(w, y) && Enabled(w, y, step)
    ensures Inv(w, Next(w, y, step))
  {
    hide R.Next, R.Enabled, R.Inv, W.Next, W.Consistent, W.Enabled, Arrives;
    var z := Next(w, y, step);
    match step {
      case Launch => R.InitialInv();
      case Engine(k, s) => R.InvStep(y.engines[k], s);
      case Writer(s) =>
        W.StepIsConsistent(y.writer, s, w.limit);
        W.StepKnown(y.writer, s, w.limit);
    }
    forall row | row in z.writer.db.rows
      ensures Arrives(w, z, EventOf(row))
    {
      assert Arrives(w, y, EventOf(row));
      ArrivesStays(w, y, step, EventOf(row));
    }
  }

  lemma {:induction false} EveryRunKeepsInv(w: World, systems: seq<System>)
    requires IsRun(w, systems)
    ensures Inv(w, systems[|systems| - 1])
  {
    hide Next, Enabled, Inv, W.Consistent;
    var k := |systems| - 1;
    if k == 0 {
      EmptyInv(w, systems[0]);
    } else {
      assert IsRun(w, systems[..k]) by {
        hide StepsTo;
      }
      EveryRunKeepsInv(w, systems[..k]);
      assert StepsTo(w, systems[k - 1], systems[k]);
      var step :| Enabled(w, systems[k - 1], step) && systems[k] == Next(w, systems[k - 1], step);
      InvStep(w, systems[k - 1], step);
    }
  }

  lemma EmptyInv(w: World, y: System)
    requires y.engines == [] && W.Consistent(y.writer) && y.writer.db.rows == []
    ensures Inv(w, y)
  {
  }

  lemma OneReportPerEvent(w: World, y: System, e: Event, k: nat, n: nat, l: nat, m: nat)
    requires Unique(w) && Inv(w, y) && IsEventFor(w, y, e, k, n) && IsEventFor(w, y, e, l, m)
    ensures k == l && n == m
  {
    hide R.QueueAgrees, R.TasksAgree, R.StartsInOrder, R.Retried, R.PostsAgree, W.Consistent;
    assert w.idOf(k, y.engines[k].fates[n].eventId) == w.idOf(l, y.engines[l].fates[m].eventId);
    assert R.Inv(y.engines[k]);
  }

  /**
   At every moment of every run each stored row records a reported event, with its instance and its content, and two
   rows record the same report only if they are one row: however often an event was posted, and whatever was pruned or
   deleted in between, it is in the table at most once.
   */
  lemma OneRowPerReport(w: World, systems: seq<System>, i: nat, j: nat, k: nat, n: nat, l: nat, m: nat)
    requires Unique(w) && IsRun(w, systems)
    requires i < |systems[|systems| - 1].writer.db.rows| && j < |systems[|systems| - 1].writer.db.rows|
    ensures var y := systems[|systems| - 1];
            var first, second := EventOf(y.writer.db.rows[i]), EventOf(y.writer.db.rows[j]);
            && Arrives(w, y, first)
            && (IsEventFor(w, y, first, k, n) && IsEventFor(w, y, second, l, m) ==> (i == j <==> k == l && n == m))
  {
    hide StepsTo, Inv, EventFor;
    EveryRunKeepsInv(w, systems);
    var y := systems[|systems| - 1];
    var rows := y.writer.db.rows;
    RowsDiffer(w, y, i, j);
    if IsEventFor(w, y, EventOf(rows[i]), k, n) && IsEventFor(w, y, EventOf(rows[j]), l, m) && i == j {
      OneReportPerEvent(w, y, EventOf(rows[i]), k, n, l, m);
    }
  }

  lemma RowsDiffer(w: World, y: System, i: nat, j: nat)
    requires Inv(w, y) && i < |y.writer.db.rows| && j < |y.writer.db.rows|
    ensures Arrives(w, y, EventOf(y.writer.db.rows[i]))
    ensures EventOf(y.writer.db.rows[i]) == EventOf(y.writer.db.rows[j]) ==> i == j
  {
    hide R.Inv, Arrives;
    assert y.writer.db.rows[i] in y.writer.db.rows;
  }

  lemma SameIdSameEvent(w: World, y: System, e: Event, f: Event)
    requires Unique(w) && Inv(w, y) && Arrives(w, y, e) && Arrives(w, y, f) && e.eventId == f.eventId
    ensures e == f
  {
    hide R.QueueAgrees, R.TasksAgree, R.StartsInOrder, R.Retried, R.PostsAgree, W.Consistent;
    var k: nat, n: nat :| IsEventFor(w, y, e, k, n);
    var l: nat, m: nat :| IsEventFor(w, y, f, l, m);
    assert w.idOf(k, y.engines[k].fates[n].eventId) == w.idOf(l, y.engines[l].fates[m].eventId);
    assert R.Inv(y.engines[k]);
  }

  /**
   At every moment of every run, a batch committed for a live instance answers each of its events with a row that
   records that very event, also when it is a retry; and one whose row is not there yet is stored then, if the batch is
   within the limit.
   */
  lemma CommittedEventIsRecorded(w: World, systems: seq<System>, instance: InstanceId, events: seq<Event>, k: nat)
    requires Unique(w) && IsRun(w, systems) && k < |events|
    requires var y := systems[|systems| - 1];
             Enabled(w, y, Writer(W.Commit(instance, events, W.NoFault))) && instance in y.writer.db.instances
    ensures var y := systems[|systems| - 1];
            var commit := W.Commit(instance, events, W.NoFault);
            var result := W.CommitResult(y.writer, commit, w.limit);
            && result.Committed? && |result.logs| == |events| && EventOf(result.logs[k]) == events[k]
            && ((forall row :: row in y.writer.db.rows ==> row.eventId != events[k].eventId) && |events| <= w.limit ==>
                 result.logs[k] in Next(w, y, Writer(commit)).writer.db.rows)
  {
    hide StepsTo, Arrives, R.Inv, InsertAll, CommitBatch, RowsOf, Valid;
    EveryRunKeepsInv(w, systems);
    var y := systems[|systems| - 1];
    var db, cached := y.writer.db, W.Cached(y.writer, instance);
    var row := W.Logs(db, events)[k];
    InsertAllStores(db, events, k);
    W.InsertAllKnown(db, events);
    assert row in InsertAll(db, events).rows;
    assert events[k] in events;
    SameIdSameEvent(w, y, EventOf(row), events[k]);
    if row !in db.rows && |events| <= w.limit {
      InsertAllAppends(db, events, instance);
      AddedWhenNew(db, events, row);
      AddedRowsSurvive(db, instance, events, w.limit, cached, row);
    }
  }

  lemma AddedWhenNew(db: Db, events: seq<Event>, row: Row)
    requires var all := InsertAll(db, events).rows; |db.rows| <= |all| && all[..|db.rows|] == db.rows && row in all
    requires row !in db.rows
    ensures row in Added(db, events)
  {
    hide InsertAll;
    var all := InsertAll(db, events).rows;
    assert all == db.rows + all[|db.rows|..];
  }
}
