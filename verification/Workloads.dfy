/**
 The Agent's workloads beside the service's rows. A deployment's request reaches the Agent after its row is stored, and
 its answer comes back later still, or not at all; neither holds the instance's lock. An Agent's answer names the
 workload it started.
 */
module Workloads {
  import opened Wrappers
  import opened Captures
  import opened Endpoints
  import L = Lifecycle

  /**
   `asked` are the instances whose request the Agent may still act on, even when the service has given up waiting or has
   restarted; `launched` is what it ever started for each, at most one workload as ids are never reused; `running` are
   the instances whose workload runs.
   */
  datatype System = System(
    service: L.State, asked: set<L.InstanceId>, launched: map<L.InstanceId, L.WorkloadId>, running: set<L.InstanceId>)

  /** `Exit` is a workload ending on its own, and a stop whose undeployment then fails on the capture file. */
  datatype Step = Service(step: L.Step) | Launch(id: L.InstanceId, workload: L.WorkloadId) | Exit(id: L.InstanceId)

  /** A deployment succeeds with the workload started for it, and is refused for a port only when none was. */
  ghost predicate Enabled(y: System, step: Step) {
    match step
    case Service(s) =>
      && L.Enabled(y.service, s)
      && (s.DeployStarted? ==> s.id in y.launched && y.launched[s.id] == s.workload)
      && (s.DeployRefused? ==> s.id in y.asked)
    case Launch(id, _) => id in y.asked
    case Exit(id) => id in y.running
  }

  /** The service stops a workload in one place: an undeployment that read its id. */
  predicate Stops(s: L.State, step: L.Step, id: L.InstanceId) {
    step == L.RemoveFile(id) && id in s.held && s.held[id].row.workload.Some?
  }

  ghost function Next(y: System, step: Step): System
    requires Enabled(y, step)
  {
    match step
    case Service(s) =>
      System(L.Next(y.service, s),
             if s.Deploy? then y.asked + {s.id} else if s.DeployRefused? then y.asked - {s.id} else y.asked,
             y.launched,
             if s.RemoveFile? && Stops(y.service, s, s.id) then y.running - {s.id} else y.running)
    case Launch(id, workload) =>
      y.(asked := y.asked - {id}, launched := y.launched[id := workload], running := y.running + {id})
    case Exit(id) => y.(running := y.running - {id})
  }

  function Initial(rules: set<L.RuleId>): System {
    System(L.Initial(rules), {}, map[], {})
  }

  ghost predicate StepsTo(y: System, z: System) {
    exists step :: Enabled(y, step) && z == Next(y, step)
  }

  ghost predicate IsRun(systems: seq<System>) {
    && systems != [] && systems[0] == Initial(systems[0].service.rules)
    && forall i :: 0 < i < |systems| ==> StepsTo(systems[i - 1], systems[i])
  }

  // ---------------------------------------------------------------------------
  // What rows and lock holders know of workloads
  // ---------------------------------------------------------------------------

  predicate Names(y: System, id: L.InstanceId, row: L.Instance) {
    row.workload.Some? ==> id in y.launched && y.launched[id] == row.workload.value
  }

  /** An undeployment past its stop: the workload it read no longer runs. */
  predicate Stopped(y: System, id: L.InstanceId) {
    id in y.service.held && y.service.held[id].Undeployed? && y.service.held[id].row.workload.Some? ==> id !in y.running
  }

  ghost predicate Tidy(y: System, id: L.InstanceId) {
    && (id in y.asked ==> id in y.service.used && id !in y.launched)
    && (id in y.running ==> id in y.launched)
    && (id in y.launched ==> id in y.service.used)
    && (id in y.service.rows ==> Names(y, id, y.service.rows[id]))
    && (id in y.service.held ==> Names(y, id, y.service.held[id].row))
    && Stopped(y, id)
  }

  ghost predicate Inv(y: System) {
    L.Inv(y.service) && forall id: L.InstanceId :: Tidy(y, id)
  }

  /** Where the workload in a row comes from. */
  predicate RowIsKnown(s: L.State, step: L.Step, t: L.State, id: L.InstanceId) {
    id in t.rows && t.rows[id].workload.Some? ==>
      || (id in s.rows && t.rows[id].workload == s.rows[id].workload)
      || (step.DeployStarted? && step.id == id && t.rows[id].workload == Some(step.workload))
      || (id in s.held && t.rows[id].workload == s.held[id].row.workload)
  }

  /** Where a lock holder's snapshot comes from, and when it counts as past its stop. */
  predicate HolderIsKnown(s: L.State, step: L.Step, t: L.State, id: L.InstanceId) {
    id in t.held ==>
      && ((id in s.held && t.held[id].row == s.held[id].row) || (id in s.rows && t.held[id].row == s.rows[id]))
      && (t.held[id].Undeployed? ==>
           id in s.held && t.held[id].row == s.held[id].row && (s.held[id].Undeployed? || step == L.RemoveFile(id)))
  }

  lemma WorkloadsAreKnown(s: L.State, step: L.Step, id: L.InstanceId)
    requires L.Enabled(s, step)
    ensures RowIsKnown(s, step, L.Next(s, step), id) && HolderIsKnown(s, step, L.Next(s, step), id)
  {
    hide CaptureFileName, IsManagedCaptureFile, L.Referenced, L.Accepts, L.Available, Bound, L.PrunedRules;
  }

  lemma ServiceKeepsTidy(y: System, step: L.Step, id: L.InstanceId)
    requires Enabled(y, Service(step)) && L.Owned(y.service) && Tidy(y, id)
    ensures Tidy(Next(y, Service(step)), id)
  {
    hide L.Next, L.Enabled, L.Owned;
    WorkloadsAreKnown(y.service, step, id);
    if step.Deploy? {
      DeployIsNew(y.service, step);
    }
    L.OwnedStep(y.service, step);
  }

  lemma DeployIsNew(s: L.State, step: L.Step)
    requires L.Enabled(s, step) && step.Deploy?
    ensures step.id !in s.used && step.id in L.Next(s, step).used
  {
    hide L.Accepts, L.Available, Bound;
  }

  lemma AgentKeepsTidy(y: System, step: Step, id: L.InstanceId)
    requires Enabled(y, step) && !step.Service? && Tidy(y, id)
    ensures Tidy(Next(y, step), id)
  {
  }

  lemma InvStep(y: System, step: Step)
    requires Inv(y) && Enabled(y, step)
    ensures Inv(Next(y, step))
  {
    hide L.Inv, L.Next, L.Enabled, L.Owned, Tidy;
    if step.Service? {
      L.InvStep(y.service, step.step);
    }
    forall id: L.InstanceId
      ensures Tidy(Next(y, step), id)
    {
      assert Tidy(y, id);
      if step.Service? {
        InvIsOwned(y.service);
        ServiceKeepsTidy(y, step.step, id);
      } else {
        AgentKeepsTidy(y, step, id);
      }
    }
  }

  lemma InvIsOwned(s: L.State)
    requires L.Inv(s)
    ensures L.Owned(s)
  {
  }

  /** On every run a stored workload id is the one the Agent started for the instance, at most one of them. */
  lemma {:induction false} EveryRunKeepsInv(systems: seq<System>)
    requires IsRun(systems)
    ensures Inv(systems[|systems| - 1])
  {
    hide Next, Enabled, Inv, Initial;
    var k := |systems| - 1;
    if k == 0 {
      InitialInv(systems[0].service.rules);
    } else {
      assert IsRun(systems[..k]) by {
        hide StepsTo;
      }
      EveryRunKeepsInv(systems[..k]);
      assert StepsTo(systems[k - 1], systems[k]);
      var step :| Enabled(systems[k - 1], step) && systems[k] == Next(systems[k - 1], step);
      InvStep(systems[k - 1], step);
    }
  }

  lemma InitialInv(rules: set<L.RuleId>)
    ensures Inv(Initial(rules))
  {
    hide L.Inv;
    L.InitialInv(rules);
  }

  // ---------------------------------------------------------------------------
  // Workloads without a row
  // ---------------------------------------------------------------------------

  predicate Rowless(y: System, id: L.InstanceId) {
    id in y.running && id !in y.service.rows
  }

  /**
   How a workload loses its row: it is launched when the row is gone already; its rule is deleted; or an undeployment
   that found no workload id in the row, and so stopped nothing, deletes the row while the workload runs.
   */
  predicate LosesRow(y: System, step: Step, id: L.InstanceId) {
    match step
    case Launch(i, _) => i == id && id !in y.service.rows
    case Exit(_) => false
    case Service(s) =>
      && id in y.running && id in y.service.rows
      && match s
         case DeleteRule(rule) => y.service.rows[id].rule == rule
         case FinishUndeploy(i) => i == id && id in y.service.held && y.service.held[id].row.workload.None?
         case _ => false
  }

  /** The steps that take rows away. */
  lemma RowsGone(s: L.State, step: L.Step, id: L.InstanceId)
    requires L.Owned(s) && L.Enabled(s, step)
    ensures id in s.rows && id !in L.Next(s, step).rows <==>
            id in s.rows && (step == L.DeployRefused(id) || step == L.FinishUndeploy(id)
                             || (step.DeleteRule? && s.rows[id].rule == step.rule))
    ensures id !in s.rows && id in L.Next(s, step).rows <==> step.Deploy? && step.id == id
    ensures step == L.FinishUndeploy(id) ==> id in s.held && s.held[id].Undeployed?
  {
    hide CaptureFileName, IsManagedCaptureFile, L.Referenced, L.Accepts, L.Available, Bound, L.PrunedRules;
  }

  /** Of all steps exactly these leave a running workload without a row. */
  lemma RowsAreLostExactly(y: System, step: Step, id: L.InstanceId)
    requires Inv(y) && Enabled(y, step)
    ensures !Rowless(y, id) && Rowless(Next(y, step), id) <==> LosesRow(y, step, id)
  {
    hide L.Inv, L.Next, L.Enabled;
    assert Tidy(y, id);
    if step.Service? {
      InvIsOwned(y.service);
      RowsGone(y.service, step.step, id);
    }
  }

  /**
   Nothing gives it a row again: it runs on until it exits, as it may at any time, or an undeployment begun before
   the loss stops it.
   */
  lemma RowlessEndsExactly(y: System, step: Step, id: L.InstanceId)
    requires Inv(y) && Enabled(y, step) && Rowless(y, id)
    ensures !Rowless(Next(y, step), id) <==>
            step == Exit(id) || (step.Service? && Stops(y.service, step.step, id))
    ensures Enabled(y, Exit(id))
  {
    hide L.Inv, L.Next, L.Enabled;
    assert Tidy(y, id);
    if step.Service? {
      InvIsOwned(y.service);
      RowsGone(y.service, step.step, id);
      if step.step.Deploy? {
        DeployIsNew(y.service, step.step);
      }
    }
  }

  // ---------------------------------------------------------------------------
  // A run where it happens
  // ---------------------------------------------------------------------------

  ghost predicate Reached(y: System) {
    exists systems :: IsRun(systems) && systems[|systems| - 1] == y
  }

  lemma ReachInitial(rules: set<L.RuleId>)
    ensures Reached(Initial(rules))
  {
    assert IsRun([Initial(rules)]);
  }

  lemma ReachNext(y: System, step: Step)
    requires Reached(y) && Enabled(y, step)
    ensures Reached(Next(y, step))
  {
    hide Enabled, Next, Initial;
    var systems :| IsRun(systems) && systems[|systems| - 1] == y;
    var longer := systems + [Next(y, step)];
    assert StepsTo(y, Next(y, step));
    forall i | 0 < i < |longer|
      ensures StepsTo(longer[i - 1], longer[i])
    {
      assert i < |systems| ==> StepsTo(systems[i - 1], systems[i]);
    }
    assert IsRun(longer);
  }

  /** A deployment that the Agent has not acted on yet. */
  lemma ReachDeployed(rule: L.RuleId, id: L.InstanceId) returns (y: System)
    ensures Reached(y) && y.asked == {id} && y.running == {} && y.service.held == map[]
    ensures y.service.rows.Keys == {id} && y.service.rows[id].workload.None?
  {
    hide Reached;
    var deploy := L.Deploy(id, rule, Http, map[Main := 80]);
    ReachInitial({rule});
    assert SpecById(Descriptor(Http), Main).Some?;
    assert L.Enabled(L.Initial({rule}), deploy);
    ReachNext(Initial({rule}), Service(deploy));
    y := Next(Initial({rule}), Service(deploy));
  }

  /** The instance is undeployed while its deployment is out; the Agent then starts a workload that nothing refers to. */
  lemma LostWorkloadIsReached(rule: L.RuleId, id: L.InstanceId, w: L.WorkloadId) returns (y: System)
    ensures Reached(y) && Enabled(y, Launch(id, w))
    ensures !Rowless(y, id) && Rowless(Next(y, Launch(id, w)), id)
  {
    hide Reached;
    var deployed := ReachDeployed(rule, id);
    ReachNext(deployed, Service(L.BeginUndeploy(id)));
    var begun := Next(deployed, Service(L.BeginUndeploy(id)));
    ReachNext(begun, Service(L.RemoveFile(id)));
    var stopped := Next(begun, Service(L.RemoveFile(id)));
    ReachNext(stopped, Service(L.FinishUndeploy(id)));
    y := Next(stopped, Service(L.FinishUndeploy(id)));
  }
}
