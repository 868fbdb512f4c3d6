/**
 The instance tables. Each method is one transaction; what it leaves in the tables is what the steps of `Lifecycle`
 say.
 */
module InstanceStore {
  import opened Wrappers
  import opened Lifecycle

  datatype Insertion = Inserted | PortOccupied | RuleMissing

  class Store {
    var rows: Table
    var rules: set<RuleId>

    constructor ()
      ensures rows == map[] && rules == {}
    {
      rows, rules := map[], {};
    }

    /** Inserts an instance unless one of its bindings is taken by an active one or its rule is gone. */
    method InsertInstanceIfPortAvailable(id: InstanceId, instance: Instance) returns (r: Insertion)
      requires id !in rows
      modifies this`rows
      ensures r == if !Available(old(rows), instance.endpoints) then PortOccupied
                   else if instance.rule !in rules then RuleMissing
                   else Inserted
      ensures rows == if r == Inserted then old(rows)[id := instance] else old(rows)
    {
      var i := 0;
      while i < |instance.endpoints|
        invariant i <= |instance.endpoints|
        invariant forall k :: 0 <= k < i ==>
          !Occupied(rows, instance.endpoints[k].transport, instance.endpoints[k].hostPort)
      {
        var endpoint := instance.endpoints[i];
        if Occupied(rows, endpoint.transport, endpoint.hostPort) {
          return PortOccupied;
        }
        i := i + 1;
      }
      if instance.rule !in rules {
        return RuleMissing;
      }
      rows := rows[id := instance];
      return Inserted;
    }

    method GetInstance(id: InstanceId) returns (r: Option<Instance>)
      ensures r == if id in rows then Some(rows[id]) else None
    {
      if id in rows {
        return Some(rows[id]);
      }
      return None;
    }

    method UpdateInstanceStatus(id: InstanceId, status: Status, workload: Option<WorkloadId>) returns (r: Option<Instance>)
      modifies this`rows
      ensures rows == WithStatus(old(rows), id, status, workload)
      ensures r == if id in rows then Some(rows[id]) else None
      ensures r.Some? ==> r.value.status == status && r.value.endpoints == old(rows)[id].endpoints
    {
      if id in rows {
        var row := rows[id].(status := status);
        if workload.Some? {
          row := row.(workload := workload);
        }
        rows := rows[id := row];
      }
      r := GetInstance(id);
    }

    method UpdatePcapState(
      id: InstanceId, capture: CaptureStatus, startTime: Option<int>, captureId: Option<CaptureId>, file: Option<string>)
      returns (r: Option<Instance>)
      modifies this`rows
      ensures rows == WithCapture(old(rows), id, capture, startTime, captureId, file)
      ensures r == if id in rows then Some(rows[id]) else None
      ensures r.Some? ==> r.value.status == old(rows)[id].status && r.value.workload == old(rows)[id].workload
    {
      if id in rows {
        rows := rows[id := rows[id].(capture := capture, startTime := startTime, captureId := captureId, file := file)];
      }
      r := GetInstance(id);
    }

    method DeleteInstance(id: InstanceId) returns (deleted: bool)
      modifies this`rows
      ensures rows == old(rows) - {id} && deleted == (id in old(rows))
    {
      deleted := id in rows;
      rows := rows - {id};
    }

    /** Deletes a rule and, by the cascade, every instance of it. */
    method DeleteRule(rule: RuleId) returns (deleted: bool)
      modifies this
      ensures rules == old(rules) - {rule} && deleted == (rule in old(rules))
      ensures rows == WithoutRule(old(rows), rule)
    {
      deleted := rule in rules;
      rules := rules - {rule};
      rows := map id | id in rows && rows[id].rule != rule :: rows[id];
    }

    /** Stores the imported rules, then drops each packaged one that was not imported and has no instance. */
    method ImportRulePackage(imported: seq<RuleId>, packaged: seq<RuleId>)
      modifies this`rules
      ensures rules == PrunedRules(old(rules), rows, set r | r in imported, set r | r in packaged)
    {
      var i := 0;
      while i < |imported|
        invariant i <= |imported|
        invariant rules == old(rules) + set k | 0 <= k < i :: imported[k]
      {
        rules := rules + {imported[i]};
        i := i + 1;
      }
      ghost var stored := rules;
      assert stored == old(rules) + set r | r in imported;
      i := 0;
      while i < |packaged|
        invariant i <= |packaged|
        invariant rules == set r | r in stored && (r in imported || r !in packaged[..i] || InUse(rows, r))
      {
        var rule := packaged[i];
        if rule !in imported && !InUse(rows, rule) {
          rules := rules - {rule};
        }
        assert packaged[..i + 1] == packaged[..i] + [rule];
        i := i + 1;
      }
      assert packaged[..|packaged|] == packaged;
    }
  }
}
