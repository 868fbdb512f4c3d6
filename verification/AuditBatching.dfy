/**
 When one batch equals one at a time: exactly when no event of the batch repeats a row that the events before it in
 the batch have pushed out.
 */
module AuditBatching {
  import opened Wrappers
  import opened Sequences
  import opened AuditTable
  import opened AuditWriter

  /** How many rows follow the row of an event id. */
  function NewerThan(rows: seq<Row>, eventId: EventId): (r: Option<nat>)
    ensures r.Some? ==> r.value < |rows| && rows[|rows| - 1 - r.value].eventId == eventId
    ensures r.None? ==> forall i :: 0 <= i < |rows| ==> rows[i].eventId != eventId
  {
    if rows == [] then None
    else if rows[0].eventId == eventId then Some(|rows| - 1)
    else NewerThan(rows[1..], eventId)
  }

  /** The rows a batch adds to a table. */
  function AddedBy(db: Db, events: seq<Event>): seq<Row> {
    var after := InsertAll(db, events).rows;
    if |db.rows| <= |after| then after[|db.rows|..] else []
  }

  /** Event `k` comes before the row it repeats, if it repeats a stored one, is pushed out. */
  predicate InTime(db: Db, instance: InstanceId, limit: nat, events: seq<Event>, k: nat)
    requires k < |events|
  {
    var newer := NewerThan(RowsOf(db.rows, instance), events[k].eventId);
    k == 0 || newer.None? || newer.value + |AddedBy(db, events[..k])| < limit
  }

  predicate AllInTime(db: Db, instance: InstanceId, limit: nat, events: seq<Event>) {
    forall k :: 0 <= k < |events| ==> InTime(db, instance, limit, events, k)
  }

  // ---------------------------------------------------------------------------
  // One at a time, side by side with the batch
  // ---------------------------------------------------------------------------

  function Single(s: State, instance: InstanceId, limit: nat, events: seq<Event>, k: nat): State
    requires k <= |events|
  {
    After(s, OneByOne(instance, events[..k]), limit)
  }

  lemma SingleStep(s: State, instance: InstanceId, limit: nat, events: seq<Event>, k: nat)
    requires k < |events|
    ensures Single(s, instance, limit, events, k + 1)
         == Next(Single(s, instance, limit, events, k), Commit(instance, [events[k]], NoFault), limit)
  {
    hide Next;
    var steps := OneByOne(instance, events[..k + 1]);
    assert steps[..k] == OneByOne(instance, events[..k]);
    assert steps[k] == Commit(instance, [events[k]], NoFault);
  }

  lemma SingleEnd(s: State, instance: InstanceId, limit: nat, events: seq<Event>)
    ensures Single(s, instance, limit, events, 0) == s
    ensures Single(s, instance, limit, events, |events|) == After(s, OneByOne(instance, events), limit)
  {
    hide Next;
    assert events[..|events|] == events;
    assert OneByOne(instance, events[..0]) == [];
  }

  /** What the instance keeps after `k` events taken one at a time, as long as all came in time. */
  function Kept(db: Db, instance: InstanceId, limit: nat, events: seq<Event>, k: nat): seq<Row>
    requires k <= |events|
  {
    if k == 0 then RowsOf(db.rows, instance)
    else Newest(RowsOf(db.rows, instance) + AddedBy(db, events[..k]), limit)
  }

  ghost predicate SideBySide(s: State, instance: InstanceId, limit: nat, events: seq<Event>, k: nat)
    requires k <= |events|
  {
    var t := Single(s, instance, limit, events, k);
    && Consistent(t) && t.db.instances == s.db.instances
    && t.db.nextId == InsertAll(s.db, events[..k]).nextId
    && RowsOf(t.db.rows, instance) == Kept(s.db, instance, limit, events, k)
    && forall other :: other != instance ==> RowsOf(t.db.rows, other) == RowsOf(s.db.rows, other)
  }

  lemma AddedBatch(db: Db, events: seq<Event>, instance: InstanceId)
    requires Valid(db) && AllFor(events, instance) && instance in db.instances
    ensures |db.rows| <= |InsertAll(db, events).rows|
    ensures AddedBy(db, events) == Added(db, events) && |AddedBy(db, events)| <= |events|
    ensures InsertAll(db, events).rows == db.rows + AddedBy(db, events) && Valid(InsertAll(db, events))
    ensures forall i :: 0 <= i < |AddedBy(db, events)| ==>
              AddedBy(db, events)[i].instanceId == instance && AddedBy(db, events)[i].id >= db.nextId
    ensures RowsOf(InsertAll(db, events).rows, instance) == RowsOf(db.rows, instance) + AddedBy(db, events)
  {
    hide InsertAll, RowsOf, Valid;
    InsertAllAppends(db, events, instance);
    BatchRows(db, instance, events, instance);
    SplitAt(InsertAll(db, events).rows, |db.rows|);
  }

  lemma Prefix(events: seq<Event>, instance: InstanceId, k: nat)
    requires AllFor(events, instance) && k <= |events|
    ensures AllFor(events[..k], instance)
    ensures k < |events| ==> events[..k + 1][..k] == events[..k] && AllFor([events[k]], instance)
  {
  }

  /** The next event's effect on the batch side. */
  lemma AddedStep(db: Db, instance: InstanceId, events: seq<Event>, k: nat)
    requires Valid(db) && AllFor(events, instance) && instance in db.instances && k < |events|
    ensures var before := InsertAll(db, events[..k]);
            var isNew := Lookup(before.rows, events[k].eventId).None?;
            && AddedBy(db, events[..k + 1])
            == AddedBy(db, events[..k]) + (if isNew then [RowFor(before.nextId, events[k])] else [])
            && InsertAll(db, events[..k + 1]).nextId == before.nextId + (if isNew then 1 else 0)
  {
    hide RowsOf, Lookup, Valid;
    Prefix(events, instance, k);
    AddedBatch(db, events[..k], instance);
    InsertStep(db, events, k);
    var before := InsertAll(db, events[..k]);
    if Lookup(before.rows, events[k].eventId).Some? {
      assert AddedBy(db, events[..k]) + [] == AddedBy(db, events[..k]);
    }
  }

  function RowFor(id: nat, event: Event): Row {
    Row(id, event.eventId, event.instanceId, event.detail)
  }

  lemma InsertStep(db: Db, events: seq<Event>, k: nat)
    requires k < |events|
    ensures InsertAll(db, events[..k + 1]) == InsertOrIgnore(InsertAll(db, events[..k]), events[k])
  {
    hide InsertOrIgnore;
    InitAndLast(events, k);
  }

  /** And on the other side. */
  lemma SingleCommit(t: State, instance: InstanceId, limit: nat, event: Event, other: InstanceId)
    requires Consistent(t) && instance in t.db.instances && event.instanceId == instance
    ensures var after := Next(t, Commit(instance, [event], NoFault), limit);
            var isNew := Lookup(t.db.rows, event.eventId).None?;
            && Consistent(after) && after.db.instances == t.db.instances
            && after.db.nextId == t.db.nextId + (if isNew then 1 else 0)
            && RowsOf(after.db.rows, instance)
            == Newest(RowsOf(t.db.rows, instance) + (if isNew then [RowFor(t.db.nextId, event)] else []), limit)
            && (other != instance ==> RowsOf(after.db.rows, other) == RowsOf(t.db.rows, other))
  {
    hide RowsOf, DropOldest, Lookup, Valid, Newest;
    CommitIsConsistent(t, Commit(instance, [event], NoFault), limit);
    CommitKeepsNewest(t.db, instance, [event], limit, Cached(t, instance), other);
    OneInsert(t.db, event);
  }

  lemma OneInsert(db: Db, event: Event)
    ensures InsertAll(db, [event]) == InsertOrIgnore(db, event)
    ensures |db.rows| <= |InsertAll(db, [event]).rows|
    ensures Added(db, [event]) == if Lookup(db.rows, event.eventId).None? then [RowFor(db.nextId, event)] else []
  {
    hide Lookup;
    assert [event][..0] == [];
    assert InsertAll(db, []) == db;
  }

  // ---------------------------------------------------------------------------
  // Both sides find the same events stored
  // ---------------------------------------------------------------------------

  lemma FoundIsMember(rows: seq<Row>, row: Row)
    requires row in rows
    ensures Lookup(rows, row.eventId).Some?
  {
  }

  lemma InNewest(rows: seq<Row>, limit: nat, row: Row, newer: nat)
    requires HasNewer(rows, row, newer) && newer < limit
    ensures row in Newest(rows, limit)
  {
    var kept := Newest(rows, limit);
    assert kept[|kept| - 1 - newer] == row;
  }

  lemma FromNewest(rows: seq<Row>, limit: nat)
    ensures forall row :: row in Newest(rows, limit) ==> row in rows
  {
  }

  lemma KeptAreInserted(db: Db, instance: InstanceId, limit: nat, events: seq<Event>, k: nat, row: Row)
    requires Valid(db) && AllFor(events, instance) && instance in db.instances && k <= |events|
    requires row in Kept(db, instance, limit, events, k)
    ensures row in InsertAll(db, events[..k]).rows && row.instanceId == instance
  {
    hide RowsOf, InsertAll, Valid, AddedBy, Newest;
    Prefix(events, instance, k);
    AddedBatch(db, events[..k], instance);
    FromNewest(RowsOf(db.rows, instance) + AddedBy(db, events[..k]), limit);
    RowsOfMember(InsertAll(db, events[..k]).rows, instance, row);
  }

  /** Whatever one at a time finds stored, the batch finds too. */
  lemma SingleFindsLess(s: State, instance: InstanceId, limit: nat, events: seq<Event>, k: nat, eventId: EventId)
    requires Consistent(s) && AllFor(events, instance) && instance in s.db.instances && k <= |events|
    requires SideBySide(s, instance, limit, events, k)
    requires Lookup(Single(s, instance, limit, events, k).db.rows, eventId).Some?
    ensures Lookup(InsertAll(s.db, events[..k]).rows, eventId).Some?
  {
    hide RowsOf, InsertAll, Valid, AddedBy, Newest, Single, Lookup, Kept;
    var rows := Single(s, instance, limit, events, k).db.rows;
    var row := Lookup(rows, eventId).value;
    var all := InsertAll(s.db, events[..k]).rows;
    RowsOfMember(rows, row.instanceId, row);
    if row.instanceId == instance {
      KeptAreInserted(s.db, instance, limit, events, k, row);
    } else {
      RowsOfMember(s.db.rows, row.instanceId, row);
      Prefix(events, instance, k);
      AddedBatch(s.db, events[..k], instance);
    }
    FoundIsMember(all, row);
  }

  /** In time, the batch finds no more. */
  lemma BatchFindsNoMore(s: State, instance: InstanceId, limit: nat, events: seq<Event>, k: nat)
    requires Consistent(s) && AllFor(events, instance) && instance in s.db.instances && k < |events| <= limit
    requires SideBySide(s, instance, limit, events, k) && InTime(s.db, instance, limit, events, k)
    requires Lookup(InsertAll(s.db, events[..k]).rows, events[k].eventId).Some?
    ensures Lookup(Single(s, instance, limit, events, k).db.rows, events[k].eventId).Some?
  {
    hide RowsOf, InsertAll, AddedBy, Newest, Single, Lookup, NewerThan, Valid;
    var rows := Single(s, instance, limit, events, k).db.rows;
    var row := Lookup(InsertAll(s.db, events[..k]).rows, events[k].eventId).value;
    Prefix(events, instance, k);
    AddedBatch(s.db, events[..k], instance);
    if row.instanceId != instance {
      assert row in s.db.rows;
      RowsOfMember(s.db.rows, row.instanceId, row);
      RowsOfMember(rows, row.instanceId, row);
    } else {
      RowsOfMember(InsertAll(s.db, events[..k]).rows, instance, row);
      RowIsKept(s.db, instance, limit, events, k, row);
      RowsOfMember(rows, instance, row);
    }
    FoundIsMember(rows, row);
  }

  lemma RowIsKept(db: Db, instance: InstanceId, limit: nat, events: seq<Event>, k: nat, row: Row)
    requires Valid(db) && AllFor(events, instance) && instance in db.instances && k < |events| <= limit
    requires InTime(db, instance, limit, events, k) && row.eventId == events[k].eventId
    requires row in RowsOf(InsertAll(db, events[..k]).rows, instance)
    ensures row in Kept(db, instance, limit, events, k)
  {
    hide RowsOf, InsertAll, AddedBy, Newest, NewerThan, Valid;
    Prefix(events, instance, k);
    AddedBatch(db, events[..k], instance);
    var stored, added := RowsOf(db.rows, instance), AddedBy(db, events[..k]);
    var all := stored + added;
    var i :| 0 <= i < |all| && all[i] == row;
    if k == 0 {
      assert added == [];
    } else if i < |stored| {
      SameIdSameRow(db, events[..k], instance, i);
      InNewest(all, limit, row, |all| - 1 - i);
    } else {
      InNewest(all, limit, row, |all| - 1 - i);
    }
  }

  /** An old row is the only one with its event id, so its place is the one found for that id. */
  lemma SameIdSameRow(db: Db, events: seq<Event>, instance: InstanceId, i: nat)
    requires Valid(db) && i < |RowsOf(db.rows, instance)|
    ensures NewerThan(RowsOf(db.rows, instance), RowsOf(db.rows, instance)[i].eventId)
         == Some(|RowsOf(db.rows, instance)| - 1 - i)
  {
    hide RowsOf, NewerThan;
    RowsOfOrdered(db, instance);
  }

  lemma StepTogether(s: State, instance: InstanceId, limit: nat, events: seq<Event>, k: nat)
    requires Consistent(s) && AllFor(events, instance) && instance in s.db.instances && k < |events| <= limit
    requires SideBySide(s, instance, limit, events, k) && InTime(s.db, instance, limit, events, k)
    ensures SideBySide(s, instance, limit, events, k + 1)
  {
    hide RowsOf, InsertAll, AddedBy, Newest, Single, Lookup, Next, InTime;
    var t, event := Single(s, instance, limit, events, k), events[k];
    SingleStep(s, instance, limit, events, k);
    AddedStep(s.db, instance, events, k);
    if Lookup(t.db.rows, event.eventId).Some? {
      SingleFindsLess(s, instance, limit, events, k, event.eventId);
    } else if Lookup(InsertAll(s.db, events[..k]).rows, event.eventId).Some? {
      BatchFindsNoMore(s, instance, limit, events, k);
    }
    SingleCommit(t, instance, limit, event, instance);
    forall other | other != instance
      ensures RowsOf(Single(s, instance, limit, events, k + 1).db.rows, other) == RowsOf(s.db.rows, other)
    {
      SingleCommit(t, instance, limit, event, other);
    }
    var more := if Lookup(t.db.rows, event.eventId).None? then [RowFor(t.db.nextId, event)] else [];
    NothingAdded(s.db, events);
    KeptStep(s.db, instance, limit, events, k, more);
  }

  lemma NothingAdded(db: Db, events: seq<Event>)
    ensures AddedBy(db, events[..0]) == []
  {
    assert events[..0] == [];
  }

  lemma KeptStep(db: Db, instance: InstanceId, limit: nat, events: seq<Event>, k: nat, more: seq<Row>)
    requires k < |events| && AddedBy(db, events[..k + 1]) == AddedBy(db, events[..k]) + more
    requires k == 0 ==> AddedBy(db, events[..k]) == []
    ensures Newest(Kept(db, instance, limit, events, k) + more, limit) == Kept(db, instance, limit, events, k + 1)
  {
    hide RowsOf, AddedBy, Newest;
    var rows, added := RowsOf(db.rows, instance), AddedBy(db, events[..k]);
    if k == 0 {
      assert [] + more == more;
    } else {
      NewestOfNewest(rows + added, more, limit);
      Associative(rows, added, more);
    }
  }

  lemma {:induction false} TogetherWhileInTime(s: State, instance: InstanceId, limit: nat, events: seq<Event>, k: nat)
    requires Consistent(s) && AllFor(events, instance) && instance in s.db.instances && k <= |events| <= limit
    requires forall j :: 0 <= j < k ==> InTime(s.db, instance, limit, events, j)
    ensures SideBySide(s, instance, limit, events, k)
  {
    hide RowsOf, AddedBy, Newest, Single, Next, InTime;
    if k == 0 {
      SingleEnd(s, instance, limit, events);
      assert events[..0] == [];
    } else {
      TogetherWhileInTime(s, instance, limit, events, k - 1);
      StepTogether(s, instance, limit, events, k - 1);
    }
  }

  // ---------------------------------------------------------------------------
  // Too late
  // ---------------------------------------------------------------------------

  lemma {:induction false} AddedGrows(db: Db, instance: InstanceId, events: seq<Event>, k: nat, n: nat)
    requires Valid(db) && AllFor(events, instance) && instance in db.instances && k <= n <= |events|
    ensures |AddedBy(db, events[..k])| <= |AddedBy(db, events[..n])|
  {
    hide AddedBy, InsertAll, Lookup, Valid;
    if k < n {
      AddedGrows(db, instance, events, k, n - 1);
      AddedStep(db, instance, events, n - 1);
    }
  }

  /** The row that event `k` repeats, when it comes too late. */
  lemma LateRow(db: Db, instance: InstanceId, limit: nat, events: seq<Event>, k: nat) returns (row: Row, newer: nat)
    requires Valid(db) && AllFor(events, instance) && instance in db.instances && k < |events|
    requires !InTime(db, instance, limit, events, k)
    ensures k > 0 && HasNewer(RowsOf(db.rows, instance), row, newer) && row.eventId == events[k].eventId
    ensures row in db.rows && row.id < db.nextId && row.instanceId == instance
    ensures newer + |AddedBy(db, events[..k])| >= limit
  {
    hide RowsOf, AddedBy, Valid;
    var rows := RowsOf(db.rows, instance);
    newer := NewerThan(rows, events[k].eventId).value;
    row := rows[|rows| - 1 - newer];
    RowsOfOrdered(db, instance);
    RowsOfMember(db.rows, instance, row);
  }

  lemma OnlyRowOfItsEvent(db: Db, a: Row, b: Row)
    requires Valid(db) && a in db.rows && b in db.rows && a.eventId == b.eventId
    ensures a == b
  {
    hide Valid;
    LookupFinds(db, a);
    LookupFinds(db, b);
  }

  /** A row with at least `limit` newer ones, old and added, is not kept. */
  lemma LateRowIsDropped(db: Db, instance: InstanceId, limit: nat, events: seq<Event>, n: nat, row: Row, newer: nat)
    requires Valid(db) && AllFor(events, instance) && instance in db.instances && 0 < n <= |events|
    requires HasNewer(RowsOf(db.rows, instance), row, newer) && row.id < db.nextId
    requires newer + |AddedBy(db, events[..n])| >= limit
    ensures row !in Kept(db, instance, limit, events, n)
  {
    hide RowsOf, AddedBy, InsertAll, Newest;
    Prefix(events, instance, n);
    AddedBatch(db, events[..n], instance);
    RowsOfOrdered(db, instance);
    NotAmongNewest(RowsOf(db.rows, instance), AddedBy(db, events[..n]), limit, row, newer, db.nextId);
  }

  /** So no kept row has its event id. */
  lemma NoneKept(db: Db, instance: InstanceId, limit: nat, events: seq<Event>, n: nat, row: Row, newer: nat, other: Row)
    requires Valid(db) && AllFor(events, instance) && instance in db.instances && 0 < n <= |events|
    requires HasNewer(RowsOf(db.rows, instance), row, newer) && row.id < db.nextId && row in db.rows
    requires newer + |AddedBy(db, events[..n])| >= limit
    requires other in Kept(db, instance, limit, events, n)
    ensures other.eventId != row.eventId
  {
    hide RowsOf, AddedBy, InsertAll, Newest, Kept, Valid, HasNewer;
    LateRowIsDropped(db, instance, limit, events, n, row, newer);
    KeptAreInserted(db, instance, limit, events, n, other);
    Prefix(events, instance, n);
    AddedBatch(db, events[..n], instance);
    if other.eventId == row.eventId {
      OnlyRowOfItsEvent(InsertAll(db, events[..n]), other, row);
    }
  }

  lemma LateIsMissing(s: State, instance: InstanceId, limit: nat, events: seq<Event>, k: nat)
    requires Consistent(s) && AllFor(events, instance) && instance in s.db.instances && k < |events|
    requires SideBySide(s, instance, limit, events, k) && !InTime(s.db, instance, limit, events, k)
    ensures Lookup(Single(s, instance, limit, events, k).db.rows, events[k].eventId).None?
  {
    hide RowsOf, InsertAll, AddedBy, Newest, Single, Lookup, InTime, Kept, HasNewer, Valid;
    var row, newer := LateRow(s.db, instance, limit, events, k);
    var rows := Single(s, instance, limit, events, k).db.rows;
    var found := Lookup(rows, events[k].eventId);
    if found.Some? {
      RowsOfMember(rows, found.value.instanceId, found.value);
      if found.value.instanceId == instance {
        NoneKept(s.db, instance, limit, events, k, row, newer, found.value);
      } else {
        RowsOfMember(s.db.rows, found.value.instanceId, found.value);
        OnlyRowOfItsEvent(s.db, row, found.value);
      }
    }
  }

  // ---------------------------------------------------------------------------
  // The rest of the batch
  // ---------------------------------------------------------------------------

  lemma {:induction false} AfterConcat(s: State, first: seq<Step>, second: seq<Step>, limit: nat)
    ensures After(s, first + second, limit) == After(After(s, first, limit), second, limit)
  {
    hide Next;
    if second == [] {
      assert first + second == first;
    } else {
      var k := |second| - 1;
      AfterConcat(s, first, second[..k], limit);
      assert (first + second)[..|first| + k] == first + second[..k];
    }
  }

  lemma RestOfBatch(s: State, instance: InstanceId, limit: nat, events: seq<Event>, k: nat)
    requires k <= |events|
    ensures After(s, OneByOne(instance, events), limit)
         == After(Single(s, instance, limit, events, k), OneByOne(instance, events[k..]), limit)
  {
    hide After;
    assert OneByOne(instance, events) == OneByOne(instance, events[..k]) + OneByOne(instance, events[k..]);
    AfterConcat(s, OneByOne(instance, events[..k]), OneByOne(instance, events[k..]), limit);
  }

  lemma {:induction false} FewNewRows(s: State, instance: InstanceId, events: seq<Event>, limit: nat, n: nat)
    requires n <= |events|
    ensures NewRows(s, OneByOne(instance, events)[..n], limit, instance) <= n
  {
    hide After, InsertAll;
    var steps := OneByOne(instance, events);
    if n > 0 {
      FewNewRows(s, instance, events, limit, n - 1);
      assert steps[..n][..n - 1] == steps[..n - 1];
      OneIsEnough(After(s, steps[..n - 1], limit).db, events[n - 1]);
    }
  }

  lemma OneIsEnough(db: Db, event: Event)
    ensures |InsertAll(db, [event]).rows| <= |db.rows| + 1
  {
    OneInsert(db, event);
  }

  lemma SinglesAreLegal(s: State, instance: InstanceId, events: seq<Event>, limit: nat)
    requires AllFor(events, instance)
    ensures Legal(s, OneByOne(instance, events), limit) && Delete(instance) !in OneByOne(instance, events)
  {
    hide After;
  }

  /** The late event is stored again one at a time, and stays to the end. */
  lemma LateIsStoredAgain(s: State, instance: InstanceId, limit: nat, events: seq<Event>, k: nat)
    requires Consistent(s) && AllFor(events, instance) && instance in s.db.instances && k < |events| <= limit
    requires SideBySide(s, instance, limit, events, k) && !InTime(s.db, instance, limit, events, k)
    ensures events[k] in Contents(After(s, OneByOne(instance, events), limit), instance)
  {
    hide RowsOf, InsertAll, AddedBy, Newest, Lookup, Next, Kept, InTime, Single, After, Consistent, NewRows;
    var t, next := Single(s, instance, limit, events, k), Single(s, instance, limit, events, k + 1);
    var row, rest := RowFor(t.db.nextId, events[k]), events[k + 1..];
    LateIsMissing(s, instance, limit, events, k);
    SingleStep(s, instance, limit, events, k);
    SingleCommit(t, instance, limit, events[k], instance);
    LastOfNewest(RowsOf(t.db.rows, instance), row, limit);
    SinglesAreLegal(next, instance, rest, limit);
    FewNewRows(next, instance, rest, limit, |rest|);
    assert OneByOne(instance, rest)[..|rest|] == OneByOne(instance, rest);
    RowSurvives(next, OneByOne(instance, rest), limit, row, 0);
    RestOfBatch(s, instance, limit, events, k + 1);
    EventIsListed(RowsOf(After(s, OneByOne(instance, events), limit).db.rows, instance), row);
  }

  lemma LastOfNewest(rows: seq<Row>, row: Row, limit: nat)
    requires limit > 0
    ensures HasNewer(Newest(rows + [row], limit), row, 0)
  {
  }

  lemma EventIsListed(rows: seq<Row>, row: Row)
    requires row in rows
    ensures EventOf(row) in EventsOf(rows)
  {
    var i :| 0 <= i < |rows| && rows[i] == row;
    assert EventsOf(rows)[i] == EventOf(row);
  }

  /** Together it is ignored, and the row it repeats is pruned: its id is gone. */
  lemma LateIsLost(s: State, instance: InstanceId, limit: nat, events: seq<Event>, k: nat)
    requires Consistent(s) && AllFor(events, instance) && instance in s.db.instances && k < |events|
    requires !InTime(s.db, instance, limit, events, k)
    ensures events[k] !in Contents(Next(s, Commit(instance, events, NoFault), limit), instance)
  {
    hide RowsOf, InsertAll, AddedBy, Newest, Lookup, InTime, Kept, CommitBatch, HasNewer;
    var row, newer := LateRow(s.db, instance, limit, events, k);
    var rows := RowsOf(Next(s, Commit(instance, events, NoFault), limit).db.rows, instance);
    BatchIsKept(s, instance, limit, events);
    AddedGrows(s.db, instance, events, k, |events|);
    if events[k] in EventsOf(rows) {
      var i :| 0 <= i < |rows| && EventsOf(rows)[i] == events[k];
      assert rows[i] in rows;
      NoneKept(s.db, instance, limit, events, |events|, row, newer, rows[i]);
    }
  }

  lemma BatchIsKept(s: State, instance: InstanceId, limit: nat, events: seq<Event>)
    requires Consistent(s) && AllFor(events, instance) && instance in s.db.instances && events != []
    ensures RowsOf(Next(s, Commit(instance, events, NoFault), limit).db.rows, instance) == Kept(s.db, instance, limit, events, |events|)
  {
    hide RowsOf, InsertAll, Newest, DropOldest;
    assert events[..|events|] == events;
    AddedBatch(s.db, events, instance);
    CommitKeepsNewest(s.db, instance, events, limit, Cached(s, instance), instance);
  }

  /**
   A batch no longer than the limit leaves an instance as if its events had been taken one at a time exactly when
   each event that repeats a stored row comes before that row is pushed out.
   */
  lemma BatchEqualsOneByOneExactly(s: State, instance: InstanceId, events: seq<Event>, limit: nat)
    requires Consistent(s) && instance in s.db.instances
    requires events != [] && AllFor(events, instance) && |events| <= limit
    ensures Contents(Next(s, Commit(instance, events, NoFault), limit), instance)
         == Contents(After(s, OneByOne(instance, events), limit), instance)
       <==> AllInTime(s.db, instance, limit, events)
  {
    hide Next, After, InTime, Consistent, RowsOf, Kept, Single;
    if AllInTime(s.db, instance, limit, events) {
      TogetherWhileInTime(s, instance, limit, events, |events|);
      SingleEnd(s, instance, limit, events);
      BatchIsKept(s, instance, limit, events);
    } else {
      var k := FirstLate(s.db, instance, limit, events);
      TogetherWhileInTime(s, instance, limit, events, k);
      LateIsStoredAgain(s, instance, limit, events, k);
      LateIsLost(s, instance, limit, events, k);
    }
  }

  lemma FirstLate(db: Db, instance: InstanceId, limit: nat, events: seq<Event>) returns (k: nat)
    requires !AllInTime(db, instance, limit, events)
    ensures k < |events| && !InTime(db, instance, limit, events, k)
    ensures forall j :: 0 <= j < k ==> InTime(db, instance, limit, events, j)
  {
    hide InTime;
    k := 0;
    while k < |events| && InTime(db, instance, limit, events, k)
      invariant k <= |events|
      invariant forall j :: 0 <= j < k ==> InTime(db, instance, limit, events, j)
    {
      k := k + 1;
    }
  }

  /** The condition is not idle: in a full table a new event followed by a repeat of the oldest row is too late. */
  lemma RepeatOfPrunedRowDiffers(s: State, instance: InstanceId, limit: nat, newcomer: Event, repetition: Event)
    requires Consistent(s) && instance in s.db.instances && limit >= 2
    requires |RowsOf(s.db.rows, instance)| == limit
    requires newcomer.instanceId == instance == repetition.instanceId && Lookup(s.db.rows, newcomer.eventId).None?
    requires repetition.eventId == RowsOf(s.db.rows, instance)[0].eventId
    ensures Contents(Next(s, Commit(instance, [newcomer, repetition], NoFault), limit), instance)
         != Contents(After(s, OneByOne(instance, [newcomer, repetition]), limit), instance)
  {
    hide RowsOf, Next, After, Lookup, Consistent, InsertAll;
    var events := [newcomer, repetition];
    assert events[..1] == [newcomer];
    OneInsert(s.db, newcomer);
    assert !InTime(s.db, instance, limit, events, 1);
    BatchEqualsOneByOneExactly(s, instance, events, limit);
  }
}
