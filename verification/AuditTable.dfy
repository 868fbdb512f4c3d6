/**
 The audit table as values: SQLite's tables are a set of instance ids, the log rows in id order, and the next
 autoincrement id. One SQLite transaction is one step.
 */
module AuditTable {
  import opened Wrappers
  import opened Sequences

  /** Text keys that are only ever compared. */
  type InstanceId(==, !new)
  type EventId(==, !new)

  /** The columns that are only copied. */
  type Columns(==, !new)

  datatype Event = Event(eventId: EventId, instanceId: InstanceId, detail: Columns)

  datatype Row = Row(id: nat, eventId: EventId, instanceId: InstanceId, detail: Columns)

  datatype Db = Db(instances: set<InstanceId>, rows: seq<Row>, nextId: nat)

  /** Ascending ids below the counter, unique event ids, and the foreign key to the instances. */
  ghost predicate Valid(db: Db) {
    && (forall i, j :: 0 <= i < j < |db.rows| ==> db.rows[i].id < db.rows[j].id)
    && (forall i :: 0 <= i < |db.rows| ==> db.rows[i].id < db.nextId)
    && (forall i, j :: 0 <= i < j < |db.rows| ==> db.rows[i].eventId != db.rows[j].eventId)
    && (forall i :: 0 <= i < |db.rows| ==> db.rows[i].instanceId in db.instances)
  }

  lemma MatchIds(db: Db)
    requires Valid(db)
    ensures forall row :: row in db.rows ==> row.instanceId in db.instances
  {
  }

  function RowsOf(rows: seq<Row>, instance: InstanceId): (r: seq<Row>)
    ensures |r| <= |rows|
  {
    if rows == [] then []
    else if rows[0].instanceId == instance then [rows[0]] + RowsOf(rows[1..], instance)
    else RowsOf(rows[1..], instance)
  }

  lemma {:induction false} RowsOfConcat(a: seq<Row>, b: seq<Row>, instance: InstanceId)
    ensures RowsOf(a + b, instance) == RowsOf(a, instance) + RowsOf(b, instance)
  {
    if a == [] {
      assert a + b == b;
    } else {
      RowsOfConcat(a[1..], b, instance);
      TailOfConcat(a, b);
      Associative([a[0]], RowsOf(a[1..], instance), RowsOf(b, instance));
    }
  }

  lemma {:induction false} RowsOfMember(rows: seq<Row>, instance: InstanceId, row: Row)
    ensures row in RowsOf(rows, instance) <==> row in rows && row.instanceId == instance
  {
    if rows != [] {
      RowsOfMember(rows[1..], instance, row);
      assert rows == [rows[0]] + rows[1..];
    }
  }

  /** `SELECT ... WHERE event_id = ?`. */
  function Lookup(rows: seq<Row>, eventId: EventId): (r: Option<Row>)
    ensures match r
            case None => forall row :: row in rows ==> row.eventId != eventId
            case Some(row) => row in rows && row.eventId == eventId
  {
    if rows == [] then None
    else if rows[0].eventId == eventId then Some(rows[0])
    else Lookup(rows[1..], eventId)
  }

  lemma LookupFinds(db: Db, row: Row)
    requires Valid(db) && row in db.rows
    ensures Lookup(db.rows, row.eventId) == Some(row)
  {
    var found := Lookup(db.rows, row.eventId);
    assert found.Some?;
    var i :| 0 <= i < |db.rows| && db.rows[i] == row;
    var j :| 0 <= j < |db.rows| && db.rows[j] == found.value;
  }

  /** `INSERT OR IGNORE`: an event id that is already stored, for any instance, changes nothing. */
  function InsertOrIgnore(db: Db, event: Event): Db {
    if Lookup(db.rows, event.eventId).Some? then db
    else
      var row := Row(db.nextId, event.eventId, event.instanceId, event.detail);
      db.(rows := db.rows + [row], nextId := db.nextId + 1)
  }

  function InsertAll(db: Db, events: seq<Event>): Db {
    if events == [] then db
    else InsertOrIgnore(InsertAll(db, events[..|events| - 1]), events[|events| - 1])
  }

  /** The rows a batch adds: those beyond the old table. */
  function Added(db: Db, events: seq<Event>): (r: seq<Row>)
    requires |db.rows| <= |InsertAll(db, events).rows|
  {
    InsertAll(db, events).rows[|db.rows|..]
  }

  predicate AllFor(events: seq<Event>, instance: InstanceId) {
    forall i :: 0 <= i < |events| ==> events[i].instanceId == instance
  }

  lemma {:induction false} InsertAllAppends(db: Db, events: seq<Event>, instance: InstanceId)
    requires Valid(db) && AllFor(events, instance) && instance in db.instances
    ensures var after := InsertAll(db, events);
            && Valid(after)
            && after.instances == db.instances
            && |db.rows| <= |after.rows| <= |db.rows| + |events|
            && after.rows[..|db.rows|] == db.rows
            && after.nextId >= db.nextId
            && (forall i :: |db.rows| <= i < |after.rows| ==> after.rows[i].id >= db.nextId && after.rows[i].instanceId == instance)
  {
    hide Lookup;
    if events != [] {
      var init, last := events[..|events| - 1], events[|events| - 1];
      InsertAllAppends(db, init, instance);
      var before, after := InsertAll(db, init), InsertAll(db, events);
      if Lookup(before.rows, last.eventId).None? {
        forall i | 0 <= i < |before.rows|
          ensures before.rows[i].eventId != last.eventId
        {
          assert before.rows[i] in before.rows;
        }
      }
    }
  }

  /** Every event of a batch is stored after its insert, whether this batch added it or an earlier one did. */
  lemma {:induction false} InsertAllStores(db: Db, events: seq<Event>, k: nat)
    requires k < |events|
    ensures Lookup(InsertAll(db, events[..k + 1]).rows, events[k].eventId).Some?
    ensures Lookup(InsertAll(db, events).rows, events[k].eventId) == Lookup(InsertAll(db, events[..k + 1]).rows, events[k].eventId)
  {
    if k == |events| - 1 {
      WholeSlice(events);
      var before := InsertAll(db, events[..k]);
      var row := Row(before.nextId, events[k].eventId, events[k].instanceId, events[k].detail);
      assert row in before.rows + [row];
      assert events[..k + 1][..k] == events[..k];
    } else {
      var init := events[..|events| - 1];
      InsertAllStores(db, init, k);
      assert init[..k + 1] == events[..k + 1];
      LookupGrows(InsertAll(db, init), events[|events| - 1], events[k].eventId);
    }
  }

  lemma LookupGrows(db: Db, event: Event, eventId: EventId)
    requires Lookup(db.rows, eventId).Some?
    ensures Lookup(InsertOrIgnore(db, event).rows, eventId) == Lookup(db.rows, eventId)
  {
    LookupPrefix(db.rows, [Row(db.nextId, event.eventId, event.instanceId, event.detail)], eventId);
  }

  lemma {:induction false} LookupPrefix(rows: seq<Row>, more: seq<Row>, eventId: EventId)
    requires Lookup(rows, eventId).Some?
    ensures Lookup(rows + more, eventId) == Lookup(rows, eventId)
  {
    if rows[0].eventId != eventId {
      LookupPrefix(rows[1..], more, eventId);
      assert (rows + more)[1..] == rows[1..] + more;
    }
  }

  /** Event ids that differ from each other and from all stored ones. */
  ghost predicate Fresh(db: Db, events: seq<Event>) {
    && (forall i, j :: 0 <= i < j < |events| ==> events[i].eventId != events[j].eventId)
    && (forall i, row :: 0 <= i < |events| && row in db.rows ==> events[i].eventId != row.eventId)
  }

  /** What a row records of its event: everything but the autoincrement id. */
  function EventOf(row: Row): Event {
    Event(row.eventId, row.instanceId, row.detail)
  }

  function EventsOf(rows: seq<Row>): (r: seq<Event>)
    ensures |r| == |rows|
  {
    seq(|rows|, i requires 0 <= i < |rows| => EventOf(rows[i]))
  }

  /** The rows of consecutive ids that a list of new events gets. */
  function RowsFor(nextId: nat, events: seq<Event>): (r: seq<Row>)
    ensures |r| == |events|
  {
    seq(|events|, i requires 0 <= i < |events| =>
      Row(nextId + i, events[i].eventId, events[i].instanceId, events[i].detail))
  }

  lemma EventsOfRowsFor(nextId: nat, events: seq<Event>)
    ensures EventsOf(RowsFor(nextId, events)) == events
  {
  }

  lemma FreshIsMissing(db: Db, events: seq<Event>, k: nat)
    requires Fresh(db, events) && k < |events|
    ensures Lookup(db.rows + RowsFor(db.nextId, events[..k]), events[k].eventId) == None
  {
  }

  /** Fresh events are all added, in order, with consecutive ids. */
  lemma {:induction false} FreshAreAdded(db: Db, events: seq<Event>)
    requires Fresh(db, events)
    ensures InsertAll(db, events) == Db(db.instances, db.rows + RowsFor(db.nextId, events), db.nextId + |events|)
  {
    hide Lookup;
    if events == [] {
      assert db.rows + RowsFor(db.nextId, events) == db.rows;
    } else {
      var k := |events| - 1;
      FreshAreAdded(db, events[..k]);
      FreshIsMissing(db, events, k);
      assert RowsFor(db.nextId, events) == RowsFor(db.nextId, events[..k])
        + [Row(db.nextId + k, events[k].eventId, events[k].instanceId, events[k].detail)];
    }
  }

  /** `DELETE ... ORDER BY id ASC LIMIT count`: removes the oldest rows of one instance. */
  function DropOldest(rows: seq<Row>, instance: InstanceId, count: nat): (r: seq<Row>)
    ensures |r| <= |rows|
  {
    if count == 0 || rows == [] then rows
    else if rows[0].instanceId == instance then DropOldest(rows[1..], instance, count - 1)
    else [rows[0]] + DropOldest(rows[1..], instance, count)
  }

  lemma {:induction false} DropOldestRows(rows: seq<Row>, instance: InstanceId, other: InstanceId, count: nat)
    requires count <= |RowsOf(rows, instance)|
    ensures RowsOf(DropOldest(rows, instance, count), instance) == RowsOf(rows, instance)[count..]
    ensures other != instance ==> RowsOf(DropOldest(rows, instance, count), other) == RowsOf(rows, other)
  {
    if count > 0 && rows != [] {
      if rows[0].instanceId == instance {
        DropOldestRows(rows[1..], instance, other, count - 1);
      } else {
        DropOldestRows(rows[1..], instance, other, count);
        var r := [rows[0]] + DropOldest(rows[1..], instance, count);
        assert r[1..] == DropOldest(rows[1..], instance, count);
      }
    }
  }

  /** Ascending ids and unique event ids. */
  ghost predicate Ordered(rows: seq<Row>) {
    forall i, j :: 0 <= i < j < |rows| ==> rows[i].id < rows[j].id && rows[i].eventId != rows[j].eventId
  }

  lemma OrderedTail(rows: seq<Row>)
    requires rows != [] && Ordered(rows)
    ensures Ordered(rows[1..])
  {
  }

  lemma OrderedCons(rows: seq<Row>, part: seq<Row>)
    requires rows != [] && forall row :: row in part ==> row in rows[1..]
    ensures Ordered(rows) && Ordered(part) ==> Ordered([rows[0]] + part)
  {
    if Ordered(rows) && Ordered(part) {
      forall j | 0 <= j < |part|
        ensures rows[0].id < part[j].id && rows[0].eventId != part[j].eventId
      {
        assert part[j] in rows[1..];
        var k :| 0 <= k < |rows[1..]| && rows[1..][k] == part[j];
        assert rows[k + 1] == part[j];
      }
    }
  }

  lemma {:induction false} DropOldestKeeps(rows: seq<Row>, instance: InstanceId, count: nat)
    ensures forall row :: row in DropOldest(rows, instance, count) ==> row in rows
    ensures Ordered(rows) ==> Ordered(DropOldest(rows, instance, count))
  {
    hide Ordered;
    if rows != [] && Ordered(rows) {
      OrderedTail(rows);
    }
    if count > 0 && rows != [] {
      if rows[0].instanceId == instance {
        DropOldestKeeps(rows[1..], instance, count - 1);
      } else {
        DropOldestKeeps(rows[1..], instance, count);
        OrderedCons(rows, DropOldest(rows[1..], instance, count));
      }
    }
  }

  lemma StaysValid(db: Db, part: seq<Row>, instances: set<InstanceId>)
    requires Valid(db) && Ordered(part)
    requires forall row :: row in part ==> row in db.rows && row.instanceId in instances
    ensures Valid(Db(instances, part, db.nextId))
  {
    forall i | 0 <= i < |part|
      ensures part[i].id < db.nextId && part[i].instanceId in instances
    {
      assert part[i] in part;
    }
  }

  /** `ON DELETE CASCADE`: deleting an instance removes its rows. */
  function Without(rows: seq<Row>, instance: InstanceId): seq<Row> {
    if rows == [] then []
    else if rows[0].instanceId == instance then Without(rows[1..], instance)
    else [rows[0]] + Without(rows[1..], instance)
  }

  lemma {:induction false} WithoutRows(rows: seq<Row>, instance: InstanceId, other: InstanceId)
    ensures RowsOf(Without(rows, instance), other) == if other == instance then [] else RowsOf(rows, other)
  {
    if rows != [] {
      WithoutRows(rows[1..], instance, other);
      if rows[0].instanceId != instance {
        var r := [rows[0]] + Without(rows[1..], instance);
        assert r[1..] == Without(rows[1..], instance);
      }
    }
  }

  lemma {:induction false} WithoutKeeps(rows: seq<Row>, instance: InstanceId)
    ensures forall row :: row in Without(rows, instance) ==> row in rows && row.instanceId != instance
    ensures Ordered(rows) ==> Ordered(Without(rows, instance))
  {
    hide Ordered;
    if rows != [] && Ordered(rows) {
      OrderedTail(rows);
    }
    if rows != [] {
      WithoutKeeps(rows[1..], instance);
      if rows[0].instanceId != instance {
        OrderedCons(rows, Without(rows[1..], instance));
      }
    }
  }

  /** The last `n` of a sequence, or all of it. */
  function Newest<T>(s: seq<T>, n: nat): seq<T> {
    if |s| <= n then s else s[|s| - n..]
  }

  lemma NewestHasTail<T>(a: seq<T>, b: seq<T>, n: nat, k: nat)
    requires k < |b| <= n
    ensures b[k] in Newest(a + b, n)
  {
    var all := a + b;
    assert all[|a| + k] == b[k];
    if |all| > n {
      assert Newest(all, n)[|a| + k - (|all| - n)] == b[k];
    }
  }

  /** Keeping the newest once is the same as keeping them after every part. */
  lemma NewestOfNewest<T>(a: seq<T>, b: seq<T>, n: nat)
    ensures Newest(Newest(a, n) + b, n) == Newest(a + b, n)
  {
  }

  /**
   The commit of one instance's batch: insert, then delete what exceeds the limit. `cached` is the row count the
   writer remembers; without one it is counted.
   */
  function CommitBatch(db: Db, instance: InstanceId, events: seq<Event>, limit: nat, cached: Option<nat>): (Db, nat) {
    var inserted := InsertAll(db, events);
    var current := match cached case Some(count) => count case None => |RowsOf(db.rows, instance)|;
    var total := current + (if |inserted.rows| < |db.rows| then 0 else |inserted.rows| - |db.rows|);
    var overflow := if total > limit then total - limit else 0;
    (inserted.(rows := DropOldest(inserted.rows, instance, overflow)), if total < limit then total else limit)
  }

  /** A commit keeps exactly the newest rows of its instance, reports their number, and leaves other instances alone. */
  lemma CommitKeepsNewest(
    db: Db, instance: InstanceId, events: seq<Event>, limit: nat, cached: Option<nat>, other: InstanceId)
    requires Valid(db) && AllFor(events, instance) && instance in db.instances
    requires cached.Some? ==> cached.value == |RowsOf(db.rows, instance)|
    ensures var (after, retained) := CommitBatch(db, instance, events, limit, cached);
            && |db.rows| <= |InsertAll(db, events).rows|
            && RowsOf(after.rows, instance) == Newest(RowsOf(db.rows, instance) + Added(db, events), limit)
            && retained == |RowsOf(after.rows, instance)|
            && (other != instance ==> RowsOf(after.rows, other) == RowsOf(db.rows, other))
            && Valid(after) && after.instances == db.instances && after.nextId >= db.nextId
  {
    hide RowsOf, DropOldest, InsertAll, Lookup, Valid;
    BatchRows(db, instance, events, other);
    var inserted := InsertAll(db, events);
    var total := |RowsOf(inserted.rows, instance)|;
    var overflow := if total > limit then total - limit else 0;
    DropOldestRows(inserted.rows, instance, other, overflow);
    PrunedIsValid(inserted, instance, overflow);
  }

  lemma PrunedIsValid(db: Db, instance: InstanceId, count: nat)
    requires Valid(db)
    ensures Valid(db.(rows := DropOldest(db.rows, instance, count)))
  {
    hide DropOldest;
    MatchIds(db);
    DropOldestKeeps(db.rows, instance, count);
    StaysValid(db, DropOldest(db.rows, instance, count), db.instances);
  }

  /** The rows after the inserts of a batch, before its prune. */
  lemma BatchRows(db: Db, instance: InstanceId, events: seq<Event>, other: InstanceId)
    requires Valid(db) && AllFor(events, instance) && instance in db.instances
    ensures var inserted := InsertAll(db, events);
            && Valid(inserted) && inserted.instances == db.instances && inserted.nextId >= db.nextId
            && |db.rows| <= |inserted.rows| <= |db.rows| + |events|
            && RowsOf(inserted.rows, instance) == RowsOf(db.rows, instance) + Added(db, events)
            && (other != instance ==> RowsOf(inserted.rows, other) == RowsOf(db.rows, other))
  {
    hide RowsOf, InsertAll, Lookup, Valid;
    InsertAllAppends(db, events, instance);
    var added := Added(db, events);
    SplitAt(InsertAll(db, events).rows, |db.rows|);
    RowsOfConcat(db.rows, added, instance);
    RowsOfConcat(db.rows, added, other);
    RowsOfOnly(added, instance, other);
  }

  lemma {:induction false} RowsOfOnly(rows: seq<Row>, instance: InstanceId, other: InstanceId)
    requires forall i :: 0 <= i < |rows| ==> rows[i].instanceId == instance
    ensures RowsOf(rows, instance) == rows
    ensures other != instance ==> RowsOf(rows, other) == []
  {
    if rows != [] {
      RowsOfOnly(rows[1..], instance, other);
    }
  }

  /** A batch no longer than the limit: every row it added survives its own prune. */
  lemma AddedRowsSurvive(db: Db, instance: InstanceId, events: seq<Event>, limit: nat, cached: Option<nat>, row: Row)
    requires Valid(db) && AllFor(events, instance) && instance in db.instances && |events| <= limit
    requires cached.Some? ==> cached.value == |RowsOf(db.rows, instance)|
    requires |db.rows| <= |InsertAll(db, events).rows| && row in Added(db, events)
    ensures row in CommitBatch(db, instance, events, limit, cached).0.rows
  {
    hide RowsOf, InsertAll, CommitBatch, Valid, Newest;
    CommitKeepsNewest(db, instance, events, limit, cached, instance);
    InsertAllAppends(db, events, instance);
    var added := Added(db, events);
    var k :| 0 <= k < |added| && added[k] == row;
    NewestHasTail(RowsOf(db.rows, instance), added, limit, k);
    RowsOfMember(CommitBatch(db, instance, events, limit, cached).0.rows, instance, row);
  }
}
