/** Reading the audit table back: one instance's rows, newest first, page by page. */
module AuditPages {
  import opened AuditTable
  import AuditWriter

  function Reversed<T>(s: seq<T>): (r: seq<T>)
    ensures |r| == |s| && forall i :: 0 <= i < |s| ==> r[i] == s[|s| - 1 - i]
  {
    seq(|s|, i requires 0 <= i < |s| => s[|s| - 1 - i])
  }

  function NewestFirst(rows: seq<Row>, instance: InstanceId): seq<Row> {
    Reversed(RowsOf(rows, instance))
  }

  /** `LIMIT size OFFSET offset`. */
  function Stretch<T>(s: seq<T>, offset: nat, size: nat): seq<T> {
    if offset >= |s| then [] else if offset + size >= |s| then s[offset..] else s[offset..offset + size]
  }

  /** Page 0 reads as page 1. */
  function Offset(page: nat, size: nat): nat {
    if page == 0 then 0 else (page - 1) * size
  }

  function Page(rows: seq<Row>, instance: InstanceId, page: nat, size: nat): seq<Row> {
    Stretch(NewestFirst(rows, instance), Offset(page, size), size)
  }

  method ListInstanceLogs(rows: seq<Row>, instance: InstanceId, page: nat, size: nat)
    returns (total: nat, records: seq<Row>)
    ensures total == |RowsOf(rows, instance)|
    ensures records == Page(rows, instance, page, size)
    ensures |records| <= size
  {
    total := |RowsOf(rows, instance)|;
    var offset := Offset(page, size);
    records := Stretch(NewestFirst(rows, instance), offset, size);
  }

  /** The first `count` pages, one after the other. */
  function Pages(rows: seq<Row>, instance: InstanceId, size: nat, count: nat): seq<Row> {
    if count == 0 then [] else Pages(rows, instance, size, count - 1) + Page(rows, instance, count, size)
  }

  lemma StretchesJoin<T>(s: seq<T>, offset: nat, size: nat)
    ensures Stretch(s, 0, offset) + Stretch(s, offset, size) == Stretch(s, 0, offset + size)
  {
  }

  /** Turning the pages lists every row exactly once, newest first, and nothing after the last. */
  lemma {:induction false} PagesCoverTheTable(rows: seq<Row>, instance: InstanceId, size: nat, count: nat)
    ensures Pages(rows, instance, size, count) == Stretch(NewestFirst(rows, instance), 0, count * size)
    ensures count * size >= |RowsOf(rows, instance)| ==> Pages(rows, instance, size, count) == NewestFirst(rows, instance)
    ensures Page(rows, instance, 0, size) == Page(rows, instance, 1, size)
  {
    hide RowsOf;
    var all := NewestFirst(rows, instance);
    if count > 0 {
      PagesCoverTheTable(rows, instance, size, count - 1);
      StretchesJoin(all, (count - 1) * size, size);
      assert (count - 1) * size + size == count * size;
    }
    if count * size >= |all| {
      assert Stretch(all, 0, count * size) == all;
    }
  }

  /** Within the pages ids strictly fall. */
  lemma PagesFall(db: Db, instance: InstanceId, i: nat, j: nat)
    requires Valid(db) && i < j < |NewestFirst(db.rows, instance)|
    ensures NewestFirst(db.rows, instance)[i].id > NewestFirst(db.rows, instance)[j].id
  {
    hide RowsOf, Valid;
    AuditWriter.RowsOfOrdered(db, instance);
  }
}
