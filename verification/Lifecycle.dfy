/**
 The life of instances: deployments, undeployments, captures, the reconcile scan, rule deletions and restarts, in any
 order. A section of code that holds an instance's lock is split into its read, which takes a snapshot of the row,
 and its writes; a deployment and the reconcile scan hold no lock at all. One transaction is one step.
 */
module Lifecycle {
  import opened Wrappers
  import opened Endpoints
  import opened Captures

  type InstanceId = string
  type RuleId(==, !new)
  type WorkloadId(==, !new)
  type CaptureId(==, !new)

  datatype Status = Deploying | Running | Error | Inactive

  datatype CaptureStatus = Idle | Capturing | Ready

  datatype Instance = Instance(
    rule: RuleId, endpoints: seq<Endpoint>, status: Status, workload: Option<WorkloadId>,
    capture: CaptureStatus, startTime: Option<int>, captureId: Option<CaptureId>, file: Option<string>)

  type Table = map<InstanceId, Instance>

  predicate IsActive(status: Status) {
    status.Deploying? || status.Running?
  }

  function NewInstance(rule: RuleId, endpoints: seq<Endpoint>): Instance {
    Instance(rule, endpoints, Deploying, None, Idle, None, None, None)
  }

  // ---------------------------------------------------------------------------
  // Statements on the instance table
  // ---------------------------------------------------------------------------

  predicate Uses(row: Instance, transport: Transport, port: Port) {
    IsActive(row.status) && exists e :: e in row.endpoints && e.transport == transport && e.hostPort == port
  }

  predicate Occupied(rows: Table, transport: Transport, port: Port) {
    exists id :: id in rows && Uses(rows[id], transport, port)
  }

  predicate Available(rows: Table, endpoints: seq<Endpoint>) {
    forall e :: e in endpoints ==> !Occupied(rows, e.transport, e.hostPort)
  }

  /** A missing row is left missing; no workload given keeps the one stored. */
  function WithStatus(rows: Table, id: InstanceId, status: Status, workload: Option<WorkloadId>): Table {
    if id in rows
    then rows[id := rows[id].(status := status, workload := if workload.Some? then workload else rows[id].workload)]
    else rows
  }

  function WithCapture(
    rows: Table, id: InstanceId, capture: CaptureStatus, startTime: Option<int>, captureId: Option<CaptureId>,
    file: Option<string>): Table
  {
    if id in rows
    then rows[id := rows[id].(capture := capture, startTime := startTime, captureId := captureId, file := file)]
    else rows
  }

  /** Deleting a rule deletes its instances. */
  function WithoutRule(rows: Table, rule: RuleId): Table {
    map id | id in rows && rows[id].rule != rule :: rows[id]
  }

  predicate InUse(rows: Table, rule: RuleId) {
    exists id :: id in rows && rows[id].rule == rule
  }

  /** An import adds its rules and drops each packaged one that it lacks and no instance uses. */
  function PrunedRules(rules: set<RuleId>, rows: Table, imported: set<RuleId>, packaged: set<RuleId>): set<RuleId> {
    set r | r in rules + imported && (r in imported || r !in packaged || InUse(rows, r))
  }

  // ---------------------------------------------------------------------------
  // Steps
  // ---------------------------------------------------------------------------

  /** What a task holding an instance's lock is doing; `row` is the snapshot it read. */
  datatype Section =
    | Undeploying(row: Instance)
    | Undeployed(row: Instance)
    | Starting(row: Instance)
    | Finalizing(row: Instance, expected: Option<CaptureId>)
    | Saved(row: Instance, expected: Option<CaptureId>)
    | Deleting(row: Instance)
    | Deleted(row: Instance)

  /**
   `deploys` are the deployments whose answer is still out, `stale` the instances a reconcile scan found active with
   a workload, `held` the locked instances. `used` and `captures` remember ids, which are never reused.
   */
  datatype State = State(
    rows: Table, rules: set<RuleId>, files: set<string>,
    deploys: set<InstanceId>, stale: set<InstanceId>, held: map<InstanceId, Section>,
    used: set<InstanceId>, captures: set<CaptureId>)

  datatype Step =
    | Deploy(id: InstanceId, rule: RuleId, protocol: Protocol, requested: map<EndpointId, Port>)
    | DeployStarted(id: InstanceId, workload: WorkloadId)
    | DeployRefused(id: InstanceId)
    | DeployFailed(id: InstanceId)
    | Observe(id: InstanceId)
    | MarkInactive(id: InstanceId)
    | BeginUndeploy(id: InstanceId)
    | FailUndeploy(id: InstanceId)
    | RemoveFile(id: InstanceId)
    | FinishUndeploy(id: InstanceId)
    | BeginStart(id: InstanceId)
    | FinishStart(id: InstanceId, captureId: CaptureId, now: int)
    | BeginFinalize(id: InstanceId, expected: Option<CaptureId>)
    | FinalizeEmpty(id: InstanceId)
    | SaveFile(id: InstanceId)
    | FinishFinalize(id: InstanceId)
    | BeginDelete(id: InstanceId)
    | DeleteFile(id: InstanceId)
    | FinishDelete(id: InstanceId)
    | Abort(id: InstanceId)
    | DeleteRule(rule: RuleId)
    | ImportRules(imported: set<RuleId>, packaged: set<RuleId>)
    | Restart(unremoved: set<string>)

  predicate IsLocal(step: Step) {
    !step.DeleteRule? && !step.ImportRules? && !step.Restart?
  }

  predicate Holds(s: State, id: InstanceId) {
    id in s.held
  }

  /** The conditions under which a finalizer goes on to stop the capture. */
  predicate MayFinalize(row: Instance, expected: Option<CaptureId>) {
    && row.capture == Capturing
    && (expected.Some? ==> row.captureId == expected)
    && row.workload.Some? && row.captureId.Some?
  }

  ghost predicate Enabled(s: State, step: Step) {
    match step
    case Deploy(id, rule, protocol, requested) =>
      && id !in s.used && rule in s.rules
      && Accepts(Descriptor(protocol), requested)
      && Available(s.rows, Bound(Descriptor(protocol), requested))
    case DeployStarted(id, _) => id in s.deploys
    case DeployRefused(id) => id in s.deploys
    case DeployFailed(id) => id in s.deploys
    case Observe(id) => id in s.rows && IsActive(s.rows[id].status) && s.rows[id].workload.Some?
    case MarkInactive(id) => id in s.stale
    case BeginUndeploy(id) => !Holds(s, id) && id in s.rows
    case FailUndeploy(id) =>
      Holds(s, id) && s.held[id].Undeploying? && (s.held[id].row.workload.Some? || s.held[id].row.file.Some?)
    case RemoveFile(id) => Holds(s, id) && s.held[id].Undeploying?
    case FinishUndeploy(id) => Holds(s, id) && s.held[id].Undeployed?
    case BeginStart(id) =>
      && !Holds(s, id) && id in s.rows
      && s.rows[id].status == Running && s.rows[id].capture != Capturing && s.rows[id].workload.Some?
    case FinishStart(id, captureId, _) => Holds(s, id) && s.held[id].Starting? && captureId !in s.captures
    case BeginFinalize(id, expected) => !Holds(s, id) && id in s.rows && MayFinalize(s.rows[id], expected)
    case FinalizeEmpty(id) => Holds(s, id) && s.held[id].Finalizing?
    case SaveFile(id) => Holds(s, id) && s.held[id].Finalizing?
    case FinishFinalize(id) => Holds(s, id) && s.held[id].Saved?
    case BeginDelete(id) => !Holds(s, id) && id in s.rows
    case DeleteFile(id) => Holds(s, id) && s.held[id].Deleting?
    case FinishDelete(id) => Holds(s, id) && s.held[id].Deleted?
    case Abort(id) => Holds(s, id) && (s.held[id].Starting? || s.held[id].Finalizing? || s.held[id].Deleting?)
    case DeleteRule(_) => true
    case ImportRules(_, _) => true
    case Restart(_) => s.held == map[]
  }

  ghost predicate Accepts(specs: seq<Spec>, requested: map<EndpointId, Port>) {
    AcceptsRequest(specs, requested) && forall id :: id in requested ==> requested[id] != 0
  }

  function Without(files: set<string>, file: Option<string>): set<string> {
    if file.Some? then files - {file.value} else files
  }

  function Referenced(rows: Table): set<string> {
    set id | id in rows && rows[id].file.Some? :: rows[id].file.value
  }

  ghost function Next(s: State, step: Step): State
    requires Enabled(s, step)
  {
    match step
    case Deploy(id, rule, protocol, requested) =>
      s.(rows := s.rows[id := NewInstance(rule, Bound(Descriptor(protocol), requested))],
         deploys := s.deploys + {id}, used := s.used + {id})
    case DeployStarted(id, workload) =>
      s.(rows := WithStatus(s.rows, id, Running, Some(workload)), deploys := s.deploys - {id})
    case DeployRefused(id) => s.(rows := s.rows - {id}, deploys := s.deploys - {id})
    case DeployFailed(id) => s.(rows := WithStatus(s.rows, id, Error, None), deploys := s.deploys - {id})
    case Observe(id) => s.(stale := s.stale + {id})
    case MarkInactive(id) => s.(rows := WithStatus(s.rows, id, Inactive, None), stale := s.stale - {id})
    case BeginUndeploy(id) => s.(held := s.held[id := Undeploying(s.rows[id])])
    case FailUndeploy(id) =>
      s.(rows := WithStatus(s.rows, id, Error, s.held[id].row.workload), held := s.held - {id})
    case RemoveFile(id) =>
      s.(files := Without(s.files, s.held[id].row.file), held := s.held[id := Undeployed(s.held[id].row)])
    case FinishUndeploy(id) => s.(rows := s.rows - {id}, held := s.held - {id})
    case BeginStart(id) => s.(held := s.held[id := Starting(s.rows[id])])
    case FinishStart(id, captureId, now) =>
      s.(rows := WithCapture(s.rows, id, Capturing, Some(now), Some(captureId), None), held := s.held - {id},
         captures := s.captures + {captureId})
    case BeginFinalize(id, expected) => s.(held := s.held[id := Finalizing(s.rows[id], expected)])
    case FinalizeEmpty(id) => s.(rows := WithCapture(s.rows, id, Idle, None, None, None), held := s.held - {id})
    case SaveFile(id) =>
      s.(files := s.files + {CaptureFileName(id)}, held := s.held[id := Saved(s.held[id].row, s.held[id].expected)])
    case FinishFinalize(id) =>
      s.(rows := WithCapture(s.rows, id, Ready, None, None, Some(CaptureFileName(id))), held := s.held - {id})
    case BeginDelete(id) => s.(held := s.held[id := Deleting(s.rows[id])])
    case DeleteFile(id) =>
      s.(files := Without(s.files, s.held[id].row.file), held := s.held[id := Deleted(s.held[id].row)])
    case FinishDelete(id) => s.(rows := WithCapture(s.rows, id, Idle, None, None, None), held := s.held - {id})
    case Abort(id) => s.(held := s.held - {id})
    case DeleteRule(rule) => s.(rules := s.rules - {rule}, rows := WithoutRule(s.rows, rule))
    case ImportRules(imported, packaged) =>
      s.(rules := PrunedRules(s.rules, s.rows, imported, packaged))
    case Restart(unremoved) =>
      s.(deploys := {}, stale := {},
         files := set f | f in s.files && (f in Referenced(s.rows) || !IsManagedCaptureFile(f) || f in unremoved))
  }

  function Initial(rules: set<RuleId>): State {
    State(map[], rules, {}, {}, {}, map[], {}, {})
  }

  ghost predicate StepsTo(s: State, t: State) {
    exists step :: Enabled(s, step) && t == Next(s, step)
  }

  ghost predicate IsRun(states: seq<State>) {
    && states != [] && states[0] == Initial(states[0].rules)
    && forall i :: 0 < i < |states| ==> StepsTo(states[i - 1], states[i])
  }

  // ---------------------------------------------------------------------------
  // One instance at a time
  // ---------------------------------------------------------------------------

  /** Everything a state says about one instance. */
  datatype View = View(row: Option<Instance>, section: Option<Section>, deploying: bool, stale: bool, saved: bool)

  function ViewOf(s: State, id: InstanceId): View {
    View(if id in s.rows then Some(s.rows[id]) else None,
         if id in s.held then Some(s.held[id]) else None,
         id in s.deploys, id in s.stale, CaptureFileName(id) in s.files)
  }

  /** A capture has a start, an id and a workload but no file; a ready one only its canonical file; an idle one nothing. */
  predicate ConsistentCapture(id: InstanceId, row: Instance) {
    match row.capture
    case Capturing => row.startTime.Some? && row.captureId.Some? && row.workload.Some? && row.file.None?
    case Ready => row.startTime.None? && row.captureId.None? && row.file == Some(CaptureFileName(id))
    case Idle => row.startTime.None? && row.captureId.None? && row.file.None?
  }

  predicate SameCapture(a: Instance, b: Instance) {
    a.capture == b.capture && a.startTime == b.startTime && a.captureId == b.captureId && a.file == b.file
  }

  /** A lock holder's snapshot still tells the truth about the capture, and about the workload once there is one. */
  predicate SnapshotHolds(row: Instance, snapshot: Instance) {
    SameCapture(row, snapshot) && (snapshot.workload.Some? ==> row.workload == snapshot.workload)
  }

  predicate ProperSection(id: InstanceId, section: Section) {
    && ConsistentCapture(id, section.row)
    && (section.Starting? ==> section.row.status == Running && section.row.capture != Capturing && section.row.workload.Some?)
    && (section.Finalizing? ==> MayFinalize(section.row, section.expected))
    && (section.Saved? ==> MayFinalize(section.row, section.expected))
  }

  /** A deployment still waiting for its answer: nobody else has touched the row. */
  predicate Pending(row: Instance) {
    row.status == Deploying && row.workload.None? && row.capture == Idle
  }

  /** The lock holder has removed the file and is about to say so. */
  predicate FileGoing(section: Option<Section>) {
    section.Some? && (section.value.Undeployed? || section.value.Deleted?)
  }

  ghost predicate Fine(id: InstanceId, v: View) {
    && (v.section.Some? ==> ProperSection(id, v.section.value))
    && (v.section.Some? && v.section.value.Saved? ==> v.saved)
    && (FileGoing(v.section) && v.section.value.row.capture == Ready ==> !v.saved)
    && (v.row.Some? ==>
         && ConsistentCapture(id, v.row.value)
         && DistinctEndpoints(v.row.value.endpoints)
         && (v.section.Some? ==> SnapshotHolds(v.row.value, v.section.value.row))
         && (v.deploying ==> Pending(v.row.value))
         && (v.stale ==> v.row.value.workload.Some?)
         && (v.row.value.capture == Ready && !FileGoing(v.section) ==> v.saved))
  }

  ghost predicate AllFine(s: State) {
    forall id: InstanceId :: Fine(id, ViewOf(s, id))
  }

  /** Every id the service still knows was handed out once. */
  ghost predicate Owned(s: State) {
    && s.rows.Keys <= s.used && s.held.Keys <= s.used && s.deploys <= s.used && s.stale <= s.used
  }

  lemma OwnedStep(s: State, step: Step)
    requires Owned(s) && Enabled(s, step)
    ensures Owned(Next(s, step)) && s.used <= Next(s, step).used
  {
    hide Accepts, Available, Bound, CaptureFileName, IsManagedCaptureFile, Referenced;
  }

  /** A step on one instance leaves every other as it was: capture files have different names. */
  lemma OthersUntouched(s: State, step: Step, other: InstanceId)
    requires Enabled(s, step) && IsLocal(step) && other != step.id
    requires Fine(step.id, ViewOf(s, step.id))
    ensures ViewOf(Next(s, step), other) == ViewOf(s, other)
  {
    hide Accepts, Available, Bound, CaptureFileName, IsManagedCaptureFile, Referenced, DistinctEndpoints, SnapshotHolds, Pending;
    if CaptureFileName(other) == CaptureFileName(step.id) {
      NamesAreDistinct(other, step.id);
    }
  }

  lemma DeployKeepsFine(s: State, step: Step)
    requires Enabled(s, step) && Owned(s) && step.Deploy?
    ensures Fine(step.id, ViewOf(Next(s, step), step.id))
  {
    hide Accepts, Available, Bound, CaptureFileName;
    DescriptorsAreDistinct(step.protocol);
    BoundAreDistinct(Descriptor(step.protocol), step.requested);
  }

  lemma AnswerKeepsFine(s: State, step: Step)
    requires step.DeployStarted? || step.DeployRefused? || step.DeployFailed? || step.Observe? || step.MarkInactive?
    requires Enabled(s, step) && Fine(step.id, ViewOf(s, step.id))
    ensures Fine(step.id, ViewOf(Next(s, step), step.id))
  {
    hide DistinctEndpoints, CaptureFileName;
  }

  lemma UndeployKeepsFine(s: State, step: Step)
    requires step.BeginUndeploy? || step.FailUndeploy? || step.RemoveFile? || step.FinishUndeploy?
    requires Enabled(s, step) && Fine(step.id, ViewOf(s, step.id))
    ensures Fine(step.id, ViewOf(Next(s, step), step.id))
  {
    hide DistinctEndpoints, CaptureFileName;
  }

  lemma CaptureKeepsFine(s: State, step: Step)
    requires step.BeginStart? || step.FinishStart? || step.BeginFinalize? || step.FinalizeEmpty? || step.Abort?
    requires Enabled(s, step) && Fine(step.id, ViewOf(s, step.id))
    ensures Fine(step.id, ViewOf(Next(s, step), step.id))
  {
    hide DistinctEndpoints, CaptureFileName;
  }

  lemma FileKeepsFine(s: State, step: Step)
    requires step.SaveFile? || step.FinishFinalize? || step.BeginDelete? || step.DeleteFile? || step.FinishDelete?
    requires Enabled(s, step) && Fine(step.id, ViewOf(s, step.id))
    ensures Fine(step.id, ViewOf(Next(s, step), step.id))
  {
    hide DistinctEndpoints, CaptureFileName;
  }

  lemma LocalKeepsFine(s: State, step: Step)
    requires Enabled(s, step) && Owned(s) && IsLocal(step) && Fine(step.id, ViewOf(s, step.id))
    ensures Fine(step.id, ViewOf(Next(s, step), step.id))
  {
    hide Enabled, Fine, Next, ViewOf, Owned;
    if step.Deploy? {
      DeployKeepsFine(s, step);
    } else if step.DeployStarted? || step.DeployRefused? || step.DeployFailed? || step.Observe? || step.MarkInactive? {
      AnswerKeepsFine(s, step);
    } else if step.BeginUndeploy? || step.FailUndeploy? || step.RemoveFile? || step.FinishUndeploy? {
      UndeployKeepsFine(s, step);
    } else if step.BeginStart? || step.FinishStart? || step.BeginFinalize? || step.FinalizeEmpty? || step.Abort? {
      CaptureKeepsFine(s, step);
    } else {
      FileKeepsFine(s, step);
    }
  }

  lemma GlobalKeepsFine(s: State, step: Step, id: InstanceId)
    requires Enabled(s, step) && !IsLocal(step) && Fine(id, ViewOf(s, id))
    ensures Fine(id, ViewOf(Next(s, step), id))
  {
    hide DistinctEndpoints, CaptureFileName, IsManagedCaptureFile, SnapshotHolds, Pending;
    if step.Restart? && id in s.rows && s.rows[id].capture == Ready {
      assert CaptureFileName(id) in Referenced(s.rows);
    }
  }

  lemma FineStep(s: State, step: Step)
    requires Enabled(s, step) && Owned(s) && AllFine(s)
    ensures AllFine(Next(s, step))
  {
    hide Enabled, Fine, Next, ViewOf, Owned;
    forall id: InstanceId
      ensures Fine(id, ViewOf(Next(s, step), id))
    {
      assert Fine(id, ViewOf(s, id));
      if !IsLocal(step) {
        GlobalKeepsFine(s, step, id);
      } else if id == step.id {
        LocalKeepsFine(s, step);
      } else {
        assert Fine(step.id, ViewOf(s, step.id));
        OthersUntouched(s, step, id);
      }
    }
  }

  // ---------------------------------------------------------------------------
  // Ports
  // ---------------------------------------------------------------------------

  predicate Apart(e: Endpoint, f: Endpoint) {
    e.transport != f.transport || e.hostPort != f.hostPort
  }

  predicate ActiveIn(rows: Table, id: InstanceId) {
    id in rows && IsActive(rows[id].status)
  }

  /** Binding `i` of the active instance `a` and another, `j` of the active `b`. */
  predicate TwoBindings(rows: Table, a: InstanceId, i: int, b: InstanceId, j: int) {
    && ActiveIn(rows, a) && 0 <= i < |rows[a].endpoints|
    && ActiveIn(rows, b) && 0 <= j < |rows[b].endpoints|
    && (a != b || i != j)
  }

  /** Two bindings of active instances never share transport and host port, be it two of one instance. */
  ghost predicate Exclusive(rows: Table) {
    forall a, i, b, j :: TwoBindings(rows, a, i, b, j) ==> Apart(rows[a].endpoints[i], rows[b].endpoints[j])
  }

  predicate FewerAt(rows: Table, later: Table, id: InstanceId) {
    ActiveIn(later, id) ==> ActiveIn(rows, id) && later[id].endpoints == rows[id].endpoints
  }

  /** Whatever is active later was active before, on the same endpoints. */
  ghost predicate Fewer(rows: Table, later: Table) {
    forall id :: FewerAt(rows, later, id)
  }

  lemma FewerStaysExclusive(rows: Table, later: Table)
    requires Exclusive(rows) && Fewer(rows, later)
    ensures Exclusive(later)
  {
    hide Apart, IsActive;
    forall a, i, b, j | TwoBindings(later, a, i, b, j)
      ensures Apart(later[a].endpoints[i], later[b].endpoints[j])
    {
      assert FewerAt(rows, later, a) && FewerAt(rows, later, b);
      assert TwoBindings(rows, a, i, b, j);
      assert Apart(rows[a].endpoints[i], rows[b].endpoints[j]);
    }
  }

  lemma LocalIsFewer(s: State, step: Step)
    requires IsLocal(step) && !step.Deploy?
    requires Enabled(s, step) && Fine(step.id, ViewOf(s, step.id))
    ensures FewerAt(s.rows, Next(s, step).rows, step.id)
  {
    hide DistinctEndpoints, CaptureFileName, SnapshotHolds, ConsistentCapture, ProperSection, FileGoing;
  }

  lemma OtherIsFewer(s: State, t: State, other: InstanceId)
    requires ViewOf(s, other) == ViewOf(t, other)
    ensures FewerAt(s.rows, t.rows, other)
  {
    hide CaptureFileName;
  }

  lemma GlobalIsFewer(s: State, step: Step, id: InstanceId)
    requires Enabled(s, step) && !IsLocal(step)
    ensures FewerAt(s.rows, Next(s, step).rows, id)
  {
    hide Referenced, IsManagedCaptureFile;
  }

  /** Only a new deployment makes an instance active. */
  lemma NothingBecomesActive(s: State, step: Step)
    requires Enabled(s, step) && AllFine(s) && !step.Deploy?
    ensures Fewer(s.rows, Next(s, step).rows)
  {
    hide Enabled, Next, Fine, ViewOf, FewerAt;
    forall id: InstanceId
      ensures FewerAt(s.rows, Next(s, step).rows, id)
    {
      if !IsLocal(step) {
        GlobalIsFewer(s, step, id);
      } else {
        assert Fine(step.id, ViewOf(s, step.id));
        if id == step.id {
          LocalIsFewer(s, step);
        } else {
          OthersUntouched(s, step, id);
          OtherIsFewer(s, Next(s, step), id);
        }
      }
    }
  }

  lemma BoundPortIsOccupied(rows: Table, b: InstanceId, j: nat)
    requires ActiveIn(rows, b) && j < |rows[b].endpoints|
    ensures Occupied(rows, rows[b].endpoints[j].transport, rows[b].endpoints[j].hostPort)
  {
    var f := rows[b].endpoints[j];
    assert f in rows[b].endpoints;
    assert Uses(rows[b], f.transport, f.hostPort);
  }

  lemma AvailableIsApart(rows: Table, endpoints: seq<Endpoint>, i: nat, b: InstanceId, j: nat)
    requires Available(rows, endpoints) && i < |endpoints| && ActiveIn(rows, b) && j < |rows[b].endpoints|
    ensures Apart(endpoints[i], rows[b].endpoints[j]) && Apart(rows[b].endpoints[j], endpoints[i])
  {
    hide Occupied;
    BoundPortIsOccupied(rows, b, j);
    assert endpoints[i] in endpoints;
  }

  lemma DeployStaysExclusive(s: State, step: Step)
    requires Enabled(s, step) && step.Deploy? && Owned(s) && Exclusive(s.rows)
    ensures Exclusive(Next(s, step).rows)
  {
    hide Accepts, Available, Bound, Apart, IsActive;
    var id, endpoints, t := step.id, Bound(Descriptor(step.protocol), step.requested), Next(s, step);
    DescriptorsAreDistinct(step.protocol);
    BoundAreDistinct(Descriptor(step.protocol), step.requested);
    forall a, i, b, j | TwoBindings(t.rows, a, i, b, j)
      ensures Apart(t.rows[a].endpoints[i], t.rows[b].endpoints[j])
    {
      if a == id && b == id {
        DistinctAreApart(endpoints, i, j);
      } else if a == id {
        AvailableIsApart(s.rows, endpoints, i, b, j);
      } else if b == id {
        AvailableIsApart(s.rows, endpoints, j, a, i);
      } else {
        assert TwoBindings(s.rows, a, i, b, j);
      }
    }
  }

  lemma DistinctAreApart(endpoints: seq<Endpoint>, i: nat, j: nat)
    requires DistinctEndpoints(endpoints) && i < |endpoints| && j < |endpoints| && i != j
    ensures Apart(endpoints[i], endpoints[j])
  {
  }

  // ---------------------------------------------------------------------------
  // Capture ids
  // ---------------------------------------------------------------------------

  predicate HasCapture(rows: Table, id: InstanceId) {
    id in rows && rows[id].captureId.Some?
  }

  /** No two instances hold one capture id. */
  ghost predicate DistinctCaptures(s: State) {
    && (forall id :: HasCapture(s.rows, id) ==> s.rows[id].captureId.value in s.captures)
    && (forall a, b :: HasCapture(s.rows, a) && HasCapture(s.rows, b) && a != b ==> s.rows[a].captureId != s.rows[b].captureId)
  }

  /** A capture id in a row was there before, or is the new one of a capture being started. */
  predicate CaptureStays(s: State, step: Step, t: State, id: InstanceId) {
    HasCapture(t.rows, id) ==>
      (HasCapture(s.rows, id) && t.rows[id].captureId == s.rows[id].captureId)
      || (step.FinishStart? && step.id == id && t.rows[id].captureId == Some(step.captureId))
  }

  lemma CaptureIdsStay(s: State, step: Step, id: InstanceId)
    requires Enabled(s, step)
    ensures CaptureStays(s, step, Next(s, step), id)
    ensures Next(s, step).captures == if step.FinishStart? then s.captures + {step.captureId} else s.captures
  {
    hide CaptureFileName, IsManagedCaptureFile, Referenced, Accepts, Available, Bound;
  }

  lemma CapturesStayDistinct(s: State, step: Step)
    requires Enabled(s, step) && DistinctCaptures(s)
    ensures DistinctCaptures(Next(s, step))
  {
    hide Next, Enabled;
    var t := Next(s, step);
    NewCaptureIdIsNew(s, step);
    forall id | HasCapture(t.rows, id)
      ensures t.rows[id].captureId.value in t.captures
    {
      CaptureIdsStay(s, step, id);
    }
    forall a, b | HasCapture(t.rows, a) && HasCapture(t.rows, b) && a != b
      ensures t.rows[a].captureId != t.rows[b].captureId
    {
      CaptureIdsStay(s, step, a);
      CaptureIdsStay(s, step, b);
    }
  }

  lemma NewCaptureIdIsNew(s: State, step: Step)
    requires Enabled(s, step)
    ensures step.FinishStart? ==> step.captureId !in s.captures
  {
  }

  // ---------------------------------------------------------------------------
  // Runs
  // ---------------------------------------------------------------------------

  /** No instance outlives its rule: a deletion cascades, and an import drops only rules nobody uses. */
  ghost predicate RulesExist(s: State) {
    forall id :: id in s.rows ==> s.rows[id].rule in s.rules
  }

  ghost predicate Inv(s: State) {
    Owned(s) && AllFine(s) && Exclusive(s.rows) && DistinctCaptures(s) && RulesExist(s)
  }

  /**
   An import leaves exactly the imported rules, the old ones that no package brought, and of the packaged ones not
   imported those that some instance uses; it touches no instance.
   */
  lemma ImportLeavesExactly(s: State, imported: set<RuleId>, packaged: set<RuleId>, rule: RuleId)
    ensures var t := Next(s, ImportRules(imported, packaged));
            && t.rows == s.rows
            && (rule in imported ==> rule in t.rules)
            && (rule !in imported && rule !in packaged ==> (rule in t.rules <==> rule in s.rules))
            && (rule !in imported && rule in packaged ==>
                 (rule in t.rules <==> rule in s.rules && exists id :: id in s.rows && s.rows[id].rule == rule))
  {
  }

  lemma RulesStay(s: State, step: Step)
    requires Enabled(s, step) && RulesExist(s)
    ensures RulesExist(Next(s, step))
  {
    hide CaptureFileName, IsManagedCaptureFile, Referenced, Accepts, Available, Bound, IsActive;
  }

  lemma InitialInv(rules: set<RuleId>)
    ensures Inv(Initial(rules))
  {
  }

  lemma InvStep(s: State, step: Step)
    requires Inv(s) && Enabled(s, step)
    ensures Inv(Next(s, step))
  {
    hide Enabled, Next, Owned, AllFine, Exclusive, DistinctCaptures, RulesExist, Fewer;
    OwnedStep(s, step);
    RulesStay(s, step);
    FineStep(s, step);
    CapturesStayDistinct(s, step);
    if step.Deploy? {
      DeployStaysExclusive(s, step);
    } else {
      NothingBecomesActive(s, step);
      FewerStaysExclusive(s.rows, Next(s, step).rows);
    }
  }

  lemma RunPrefix(states: seq<State>, k: nat)
    requires IsRun(states) && k < |states|
    ensures IsRun(states[..k + 1])
  {
    hide StepsTo;
  }

  /** In every state of every run ports are exclusive and every instance's capture is consistent. */
  lemma {:induction false} EveryRunKeepsInv(states: seq<State>)
    requires IsRun(states)
    ensures Inv(states[|states| - 1])
  {
    hide Next, Enabled, Inv, Initial;
    var k := |states| - 1;
    if k == 0 {
      InitialInv(states[0].rules);
    } else {
      RunPrefix(states, k - 1);
      EveryRunKeepsInv(states[..k]);
      assert StepsTo(states[k - 1], states[k]);
      var step :| Enabled(states[k - 1], step) && states[k] == Next(states[k - 1], step);
      InvStep(states[k - 1], step);
    }
  }

  lemma InactiveStep(s: State, step: Step, id: InstanceId)
    requires Inv(s) && Enabled(s, step) && id in s.used && !ActiveIn(s.rows, id)
    ensures id in Next(s, step).used && !ActiveIn(Next(s, step).rows, id)
  {
    OwnedStep(s, step);
    if !step.Deploy? {
      assert AllFine(s);
      hide Next, Enabled, Inv, ActiveIn;
      NothingBecomesActive(s, step);
      assert FewerAt(s.rows, Next(s, step).rows, id);
    }
  }

  /** An instance that has left the active states, or is gone, never enters them again. */
  lemma {:induction false} NeverActiveAgain(states: seq<State>, i: nat, j: nat, id: InstanceId)
    requires IsRun(states) && i <= j < |states|
    requires id in states[i].used && !ActiveIn(states[i].rows, id)
    ensures id in states[j].used && !ActiveIn(states[j].rows, id)
  {
    hide Next, Enabled, Inv, ActiveIn, Initial;
    if i < j {
      NeverActiveAgain(states, i, j - 1, id);
      RunPrefix(states, j - 1);
      EveryRunKeepsInv(states[..j]);
      assert StepsTo(states[j - 1], states[j]);
      var step :| Enabled(states[j - 1], step) && states[j] == Next(states[j - 1], step);
      InactiveStep(states[j - 1], step, id);
    }
  }

  /** A finalizer that expects capture `c` ends no other: while it holds the lock the row still has capture `c`. */
  lemma FinalizerEndsOnlyItsCapture(s: State, id: InstanceId, c: CaptureId)
    requires Inv(s) && Holds(s, id) && id in s.rows
    requires (s.held[id].Finalizing? || s.held[id].Saved?) && s.held[id].expected == Some(c)
    ensures s.rows[id].capture == Capturing && s.rows[id].captureId == Some(c) && s.rows[id].workload.Some?
    ensures forall other :: other in s.rows && other != id ==> s.rows[other].captureId != Some(c)
  {
    hide DistinctEndpoints, CaptureFileName;
    assert Fine(id, ViewOf(s, id));
    assert HasCapture(s.rows, id);
    forall other | other in s.rows && other != id
      ensures s.rows[other].captureId != Some(c)
    {
      if s.rows[other].captureId.Some? {
        assert HasCapture(s.rows, other);
      }
    }
  }

  /**
   Captures start on running instances alone: whoever is about to start one saw the instance running without a capture,
   and its row, if still there, has no capture yet and the same workload.
   */
  lemma CapturesStartOnRunning(s: State, id: InstanceId)
    requires Inv(s) && Holds(s, id) && s.held[id].Starting?
    ensures s.held[id].row.status == Running && s.held[id].row.workload.Some?
    ensures id in s.rows ==> s.rows[id].capture != Capturing && s.rows[id].workload == s.held[id].row.workload
  {
    hide DistinctEndpoints, CaptureFileName;
    assert Fine(id, ViewOf(s, id));
  }

  /** What a lock holder stores about a finished capture is on disk when no lock is held. */
  lemma ReadyFilesExist(s: State, id: InstanceId)
    requires Inv(s) && id in s.rows && s.rows[id].capture == Ready && !Holds(s, id)
    ensures s.rows[id].file == Some(CaptureFileName(id)) && CaptureFileName(id) in s.files
  {
    hide CaptureFileName;
    assert Fine(id, ViewOf(s, id));
  }

  /** An undeployment removes the capture file exactly when the row was ready; one left by an older capture stays. */
  lemma UndeployRemovesReadyFile(s: State, id: InstanceId)
    requires Inv(s) && Enabled(s, RemoveFile(id))
    ensures CaptureFileName(id) in Next(s, RemoveFile(id)).files
       <==> CaptureFileName(id) in s.files && s.held[id].row.capture != Ready
  {
    hide CaptureFileName;
    assert Fine(id, ViewOf(s, id));
  }

  /** A file on disk that no row refers to. */
  predicate Orphan(s: State, file: string) {
    file in s.files && file !in Referenced(s.rows)
  }

  /**
   Starting a capture orphans a file exactly when the row was ready: the file of the capture it replaces, and no other.
   Afterwards the instance's file is an orphan exactly when it is on disk at all.
   */
  lemma RestartedCaptureOrphansFile(s: State, id: InstanceId, c: CaptureId, now: int, file: string)
    requires Inv(s) && Enabled(s, FinishStart(id, c, now))
    ensures !Orphan(s, file) && Orphan(Next(s, FinishStart(id, c, now)), file)
       <==> file == CaptureFileName(id) && id in s.rows && s.held[id].row.capture == Ready
    ensures Orphan(Next(s, FinishStart(id, c, now)), CaptureFileName(id)) <==> CaptureFileName(id) in s.files
  {
    hide CaptureFileName, DistinctEndpoints, Referenced;
    var step := FinishStart(id, c, now);
    assert Fine(id, ViewOf(s, id));
    FineStep(s, step);
    NotReferenced(Next(s, step), id);
    if file == CaptureFileName(id) {
      ReferencedWhenReady(s, id);
    } else {
      OtherReferences(s, Next(s, step), id, file);
    }
  }

  lemma NotReferenced(s: State, id: InstanceId)
    requires AllFine(s) && (id in s.rows ==> s.rows[id].capture != Ready)
    ensures CaptureFileName(id) !in Referenced(s.rows)
  {
    hide CaptureFileName, DistinctEndpoints;
    if CaptureFileName(id) in Referenced(s.rows) {
      var other :| other in s.rows && s.rows[other].file == Some(CaptureFileName(id));
      assert Fine(other, ViewOf(s, other));
      NamesAreDistinct(id, other);
    }
  }

  lemma ReferencedWhenReady(s: State, id: InstanceId)
    requires AllFine(s)
    ensures CaptureFileName(id) in Referenced(s.rows) <==> id in s.rows && s.rows[id].capture == Ready
  {
    hide CaptureFileName, DistinctEndpoints;
    assert Fine(id, ViewOf(s, id));
    if id in s.rows && s.rows[id].capture == Ready {
      assert CaptureFileName(id) in Referenced(s.rows);
    } else {
      NotReferenced(s, id);
    }
  }

  /** A change to one row leaves the references to every other file. */
  lemma OtherReferences(s: State, t: State, id: InstanceId, file: string)
    requires AllFine(s) && AllFine(t) && file != CaptureFileName(id)
    requires s.rows.Keys == t.rows.Keys && forall other :: other in s.rows && other != id ==> t.rows[other] == s.rows[other]
    ensures file in Referenced(s.rows) <==> file in Referenced(t.rows)
  {
    hide CaptureFileName, DistinctEndpoints;
    assert Fine(id, ViewOf(s, id)) && Fine(id, ViewOf(t, id));
    if file in Referenced(s.rows) {
      var other :| other in s.rows && s.rows[other].file == Some(file);
      assert t.rows[other].file == Some(file);
    }
    if file in Referenced(t.rows) {
      var other :| other in t.rows && t.rows[other].file == Some(file);
      assert s.rows[other].file == Some(file);
    }
  }

  /**
   How a step orphans the file of instance `id`: a start from ready, a finalizer that has saved a file its last step
   will refer to if the row is still there, or the deletion of a rule, which takes ready instances along without their files.
   */
  predicate OrphanedBy(s: State, step: Step, id: InstanceId) {
    match step
    case FinishStart(i, _, _) => i == id && id in s.rows && s.rows[id].capture == Ready
    case SaveFile(i) => i == id && CaptureFileName(id) !in s.files
    case DeleteRule(rule) =>
      id in s.rows && s.rows[id].rule == rule && s.rows[id].capture == Ready && CaptureFileName(id) in s.files
    case _ => false
  }

  /** Of all steps exactly these orphan an instance's file. */
  lemma OrphansBeginExactly(s: State, step: Step, id: InstanceId)
    requires Inv(s) && Enabled(s, step)
    ensures !Orphan(s, CaptureFileName(id)) && Orphan(Next(s, step), CaptureFileName(id)) <==> OrphanedBy(s, step, id)
  {
    hide Enabled, Next, Fine, OrphanedBy, Referenced;
    var t := Next(s, step);
    FineStep(s, step);
    OrphanIsUnreferenced(s, id);
    OrphanIsUnreferenced(t, id);
    assert Fine(id, ViewOf(s, id));
    if !IsLocal(step) {
      GlobalOrphans(s, step, id);
    } else if step.id != id {
      assert Fine(step.id, ViewOf(s, step.id));
      OthersUntouched(s, step, id);
      OtherOrphansNothing(s, step, id);
    } else if step.FinishStart? || step.SaveFile? || step.FinishFinalize? {
      CaptureOrphans(s, step);
    } else {
      LocalOrphansNothing(s, step);
    }
  }

  /**
   A finalizer that has saved its file leaves it with a row in its last step exactly when the row is still there; when
   the rule was deleted in the meantime the file stays behind.
   */
  lemma FinishedFileIsClaimedExactly(s: State, id: InstanceId)
    requires Inv(s) && Enabled(s, FinishFinalize(id))
    ensures Orphan(Next(s, FinishFinalize(id)), CaptureFileName(id)) <==> id !in s.rows
  {
    hide Fine, Referenced;
    FineStep(s, FinishFinalize(id));
    OrphanIsUnreferenced(Next(s, FinishFinalize(id)), id);
    assert Fine(id, ViewOf(s, id));
    FinishClaims(s, id);
  }

  lemma FinishClaims(s: State, id: InstanceId)
    requires Enabled(s, FinishFinalize(id)) && Fine(id, ViewOf(s, id))
    ensures Unclaimed(Next(s, FinishFinalize(id)), id) <==> id !in s.rows
  {
    hide CaptureFileName, DistinctEndpoints;
  }

  lemma OrphanIsUnreferenced(s: State, id: InstanceId)
    requires AllFine(s)
    ensures Orphan(s, CaptureFileName(id)) <==> Unclaimed(s, id)
  {
    hide Referenced, Fine, CaptureFileName;
    ReferencedWhenReady(s, id);
  }

  /** The file is there and the instance is not ready. */
  predicate Unclaimed(s: State, id: InstanceId) {
    CaptureFileName(id) in s.files && !(id in s.rows && s.rows[id].capture == Ready)
  }

  lemma GlobalOrphans(s: State, step: Step, id: InstanceId)
    requires Enabled(s, step) && !IsLocal(step)
    ensures !Unclaimed(s, id) && Unclaimed(Next(s, step), id) <==> OrphanedBy(s, step, id)
  {
    hide CaptureFileName, IsManagedCaptureFile, Referenced;
  }

  lemma OtherOrphansNothing(s: State, step: Step, id: InstanceId)
    requires Enabled(s, step) && IsLocal(step) && step.id != id && ViewOf(Next(s, step), id) == ViewOf(s, id)
    ensures Unclaimed(s, id) <==> Unclaimed(Next(s, step), id)
    ensures !OrphanedBy(s, step, id)
  {
    hide CaptureFileName, Next;
  }

  lemma CaptureOrphans(s: State, step: Step)
    requires step.FinishStart? || step.SaveFile? || step.FinishFinalize?
    requires Enabled(s, step) && Fine(step.id, ViewOf(s, step.id))
    ensures !Unclaimed(s, step.id) && Unclaimed(Next(s, step), step.id) <==> OrphanedBy(s, step, step.id)
  {
    hide CaptureFileName, DistinctEndpoints;
  }

  lemma LocalOrphansNothing(s: State, step: Step)
    requires IsLocal(step) && !step.FinishStart? && !step.SaveFile? && !step.FinishFinalize?
    requires Owned(s) && Enabled(s, step) && Fine(step.id, ViewOf(s, step.id))
    ensures Unclaimed(Next(s, step), step.id) ==> Unclaimed(s, step.id)
    ensures !OrphanedBy(s, step, step.id)
  {
    hide CaptureFileName, DistinctEndpoints, Accepts, Available, Bound;
  }

  ghost predicate Reached(s: State) {
    exists states :: IsRun(states) && states[|states| - 1] == s
  }

  lemma ReachInitial(rules: set<RuleId>)
    ensures Reached(Initial(rules))
  {
    assert IsRun([Initial(rules)]);
  }

  lemma ReachNext(s: State, step: Step)
    requires Reached(s) && Enabled(s, step)
    ensures Reached(Next(s, step)) && Inv(s)
  {
    hide Enabled, Next, Initial, Inv;
    var states :| IsRun(states) && states[|states| - 1] == s;
    EveryRunKeepsInv(states);
    var longer := states + [Next(s, step)];
    assert StepsTo(s, Next(s, step));
    forall i | 0 < i < |longer|
      ensures StepsTo(longer[i - 1], longer[i])
    {
      assert i < |states| ==> StepsTo(states[i - 1], states[i]);
    }
    assert IsRun(longer);
  }

  /** Only the instance `id` is stored, as `row`, and only it may be locked, for `section`. */
  ghost predicate Alone(s: State, id: InstanceId, row: Instance, section: Option<Section>) {
    && Reached(s) && s.rows == map[id := row]
    && s.held == if section.Some? then map[id := section.value] else map[]
  }

  /** A deployment that has been answered. */
  lemma RunsAlone(rule: RuleId, id: InstanceId, w: WorkloadId) returns (s: State, row: Instance)
    ensures Alone(s, id, row, None) && s.captures == {}
    ensures row.status == Running && row.workload.Some? && row.capture == Idle
  {
    hide Reached, CaptureFileName;
    var requested := map[Main := 80];
    var deploy := Deploy(id, rule, Http, requested);
    ReachInitial({rule});
    assert SpecById(Descriptor(Http), Main).Some?;
    assert Enabled(Initial({rule}), deploy);
    ReachNext(Initial({rule}), deploy);
    var deployed := Next(Initial({rule}), deploy);
    ReachNext(deployed, DeployStarted(id, w));
    s := Next(deployed, DeployStarted(id, w));
    row := s.rows[id];
  }

  /** A capture started on it. */
  lemma CapturesAlone(s: State, id: InstanceId, row: Instance, c: CaptureId, now: int) returns (t: State, after: Instance)
    requires Alone(s, id, row, None) && c !in s.captures
    requires row.status == Running && row.workload.Some? && row.capture != Capturing
    ensures Alone(t, id, after, None) && t.captures == s.captures + {c}
    ensures after == row.(capture := Capturing, startTime := Some(now), captureId := Some(c), file := None)
  {
    hide Reached, CaptureFileName;
    ReachNext(s, BeginStart(id));
    var begun := Next(s, BeginStart(id));
    ReachNext(begun, FinishStart(id, c, now));
    t := Next(begun, FinishStart(id, c, now));
    after := t.rows[id];
  }

  /** A capture on it finalized. */
  lemma FinalizesAlone(s: State, id: InstanceId, row: Instance) returns (t: State, after: Instance)
    requires Alone(s, id, row, None) && row.capture == Capturing && row.workload.Some? && row.captureId.Some?
    ensures Alone(t, id, after, None) && t.captures == s.captures
    ensures after == row.(capture := Ready, startTime := None, captureId := None, file := Some(CaptureFileName(id)))
  {
    hide Reached, CaptureFileName;
    ReachNext(s, BeginFinalize(id, None));
    var begun := Next(s, BeginFinalize(id, None));
    ReachNext(begun, SaveFile(id));
    var saved := Next(begun, SaveFile(id));
    ReachNext(saved, FinishFinalize(id));
    t := Next(saved, FinishFinalize(id));
    after := t.rows[id];
  }

  /** A run where it happens: deploy, start a capture, finalize it, start another. */
  lemma OrphanIsReached(rule: RuleId, id: InstanceId, w: WorkloadId, first: CaptureId, second: CaptureId, now: int)
    returns (s: State)
    requires first != second
    ensures Reached(s) && Enabled(s, FinishStart(id, second, now))
    ensures !Orphan(s, CaptureFileName(id)) && Orphan(Next(s, FinishStart(id, second, now)), CaptureFileName(id))
  {
    hide Reached, CaptureFileName, Referenced, Inv;
    var running, row := RunsAlone(rule, id, w);
    var capturing, row1 := CapturesAlone(running, id, row, first, now);
    var ready, row2 := FinalizesAlone(capturing, id, row1);
    ReachNext(ready, BeginStart(id));
    s := Next(ready, BeginStart(id));
    ReachNext(s, FinishStart(id, second, now));
    RestartedCaptureOrphansFile(s, id, second, now, CaptureFileName(id));
  }

  /** A run to the other case: the rule is deleted while the finalizer stops the capture. */
  lemma UnclaimedFinishIsReached(rule: RuleId, id: InstanceId, w: WorkloadId, c: CaptureId, now: int) returns (s: State)
    ensures Reached(s) && Enabled(s, FinishFinalize(id))
    ensures Orphan(Next(s, FinishFinalize(id)), CaptureFileName(id))
  {
    hide Reached, CaptureFileName, Referenced, Inv;
    var running, row := RunsAlone(rule, id, w);
    var capturing, row1 := CapturesAlone(running, id, row, c, now);
    ReachNext(capturing, BeginFinalize(id, None));
    var begun := Next(capturing, BeginFinalize(id, None));
    ReachNext(begun, DeleteRule(row1.rule));
    var deleted := Next(begun, DeleteRule(row1.rule));
    ReachNext(deleted, SaveFile(id));
    s := Next(deleted, SaveFile(id));
    ReachNext(s, FinishFinalize(id));
    FinishedFileIsClaimedExactly(s, id);
  }

  /**
   A restart keeps an orphan exactly when its name is not managed or its removal failed. So an instance's file is left
   exactly when the instance is ready, or the file was there and its id is not plain or its removal failed.
   */
  lemma RestartLeavesNoOrphan(s: State, unremoved: set<string>, id: InstanceId, file: string)
    requires Inv(s) && Enabled(s, Restart(unremoved))
    ensures Orphan(Next(s, Restart(unremoved)), file)
       <==> Orphan(s, file) && (!IsManagedCaptureFile(file) || file in unremoved)
    ensures CaptureFileName(id) in Next(s, Restart(unremoved)).files <==>
            ((id in s.rows && s.rows[id].capture == Ready)
             || (CaptureFileName(id) in s.files && (!HasPlainCodes(id) || CaptureFileName(id) in unremoved)))
  {
    hide CaptureFileName, IsManagedCaptureFile, HasPlainCodes, IsPlainId, DistinctEndpoints, Referenced;
    NameIsManaged(id);
    assert Fine(id, ViewOf(s, id));
    ReferencedWhenReady(s, id);
  }

  // ---------------------------------------------------------------------------
  // What each step writes in a row
  // ---------------------------------------------------------------------------

  /** The status a step leaves in a row that was there before. */
  function StatusAfter(step: Step, id: InstanceId, before: Status): Status {
    if step.DeployStarted? && step.id == id then Running
    else if (step.DeployFailed? || step.FailUndeploy?) && step.id == id then Error
    else if step.MarkInactive? && step.id == id then Inactive
    else before
  }

  /** The capture columns a step leaves. */
  predicate CaptureAfter(step: Step, id: InstanceId, before: Instance, after: Instance) {
    if step.FinishStart? && step.id == id then
      after.capture == Capturing && after.startTime == Some(step.now) && after.captureId == Some(step.captureId) && after.file == None
    else if step.FinishFinalize? && step.id == id then
      after.capture == Ready && after.startTime == None && after.captureId == None && after.file == Some("pcap_" + id + ".pcap")
    else if (step.FinalizeEmpty? || step.FinishDelete?) && step.id == id then
      after.capture == Idle && after.startTime == None && after.captureId == None && after.file == None
    else SameCapture(before, after)
  }

  /**
   Over all steps: a row becomes `Running` exactly by a deployment answered with its workload, whose id it then holds,
   `Error` by a failed deployment or undeployment, `Inactive` by a reconcile that misses its workload. Its capture
   columns change as the capture sections end, and its rule and endpoints never.
   */
  lemma RowChangesExactly(s: State, step: Step, id: InstanceId)
    requires Inv(s) && Enabled(s, step) && id in s.rows && id in Next(s, step).rows
    ensures var before, after := s.rows[id], Next(s, step).rows[id];
            && after.rule == before.rule && after.endpoints == before.endpoints
            && after.status == StatusAfter(step, id, before.status)
            && after.workload == (if step.DeployStarted? && step.id == id then Some(step.workload) else before.workload)
            && CaptureAfter(step, id, before, after)
  {
    hide Next, Enabled, StatusAfter, CaptureAfter, Fine;
    assert Fine(id, ViewOf(s, id));
    OtherColumnsChange(s, step, id);
    CaptureChanges(s, step, id);
  }

  lemma OtherColumnsChange(s: State, step: Step, id: InstanceId)
    requires Enabled(s, step) && id in s.rows && id in Next(s, step).rows && Fine(id, ViewOf(s, id)) && Owned(s)
    ensures var before, after := s.rows[id], Next(s, step).rows[id];
            && after.rule == before.rule && after.endpoints == before.endpoints
            && after.status == StatusAfter(step, id, before.status)
            && after.workload == (if step.DeployStarted? && step.id == id then Some(step.workload) else before.workload)
  {
    hide Next, Enabled, Fine, StatusAfter;
    RuleStaysTheSame(s, step, id);
    StatusChanges(s, step, id);
    WorkloadChanges(s, step, id);
  }

  lemma RuleStaysTheSame(s: State, step: Step, id: InstanceId)
    requires Enabled(s, step) && id in s.rows && id in Next(s, step).rows && Owned(s)
    ensures Next(s, step).rows[id].rule == s.rows[id].rule && Next(s, step).rows[id].endpoints == s.rows[id].endpoints
  {
    hide IsManagedCaptureFile, Referenced, Accepts, Available, Bound, MayFinalize, CaptureFileName;
  }

  lemma StatusChanges(s: State, step: Step, id: InstanceId)
    requires Enabled(s, step) && id in s.rows && id in Next(s, step).rows && Owned(s)
    ensures Next(s, step).rows[id].status == StatusAfter(step, id, s.rows[id].status)
  {
    hide IsManagedCaptureFile, Referenced, Accepts, Available, Bound, MayFinalize, CaptureFileName;
  }

  lemma WorkloadChanges(s: State, step: Step, id: InstanceId)
    requires Enabled(s, step) && id in s.rows && id in Next(s, step).rows && Fine(id, ViewOf(s, id)) && Owned(s)
    ensures Next(s, step).rows[id].workload
         == if step.DeployStarted? && step.id == id then Some(step.workload) else s.rows[id].workload
  {
    hide IsManagedCaptureFile, Referenced, Accepts, Available, Bound, ConsistentCapture, ProperSection, MayFinalize, Pending, FileGoing,
      SameCapture, DistinctEndpoints, CaptureFileName;
  }

  lemma CaptureChanges(s: State, step: Step, id: InstanceId)
    requires Enabled(s, step) && id in s.rows && id in Next(s, step).rows && Owned(s)
    ensures CaptureAfter(step, id, s.rows[id], Next(s, step).rows[id])
  {
    hide IsManagedCaptureFile, Referenced, Accepts, Available, Bound;
  }

  /** A deployment stores its row, on the ports it asked for: each requested endpoint at its port, and no others. */
  lemma DeployedRowIsAsAsked(s: State, step: Step)
    requires Enabled(s, step) && step.Deploy?
    ensures step.id in Next(s, step).rows
    ensures var row := Next(s, step).rows[step.id];
            && row.rule == step.rule && row.status == Deploying && row.workload == None
            && row.capture == Idle && row.startTime == None && row.captureId == None && row.file == None
            && (forall e :: e in row.endpoints ==> Matches(Descriptor(step.protocol), e))
            && (forall eid :: eid in step.requested <==>
                 exists e :: e in row.endpoints && e.id == eid && e.hostPort == step.requested[eid])
  {
    hide Bound, Descriptor, Available, Matches;
    AcceptedIsLaunchable(step.protocol, step.requested);
  }

  /** The binding is held by an instance that is being deployed or runs. */
  ghost predicate Taken(rows: Table, e: Endpoint) {
    exists id, f :: id in rows && (rows[id].status == Deploying || rows[id].status == Running)
                    && f in rows[id].endpoints && f.transport == e.transport && f.hostPort == e.hostPort
  }

  /** A deployment is let through exactly when none of its bindings is taken: the same port over TCP and UDP is two bindings. */
  lemma AvailableExactly(rows: Table, endpoints: seq<Endpoint>)
    ensures Available(rows, endpoints) <==> forall e :: e in endpoints ==> !Taken(rows, e)
  {
    forall e | e in endpoints
      ensures Occupied(rows, e.transport, e.hostPort) <==> Taken(rows, e)
    {
      OccupiedExactly(rows, e);
    }
  }

  lemma OccupiedExactly(rows: Table, e: Endpoint)
    ensures Occupied(rows, e.transport, e.hostPort) <==> Taken(rows, e)
  {
    if Occupied(rows, e.transport, e.hostPort) {
      var id :| id in rows && Uses(rows[id], e.transport, e.hostPort);
      var f :| f in rows[id].endpoints && f.transport == e.transport && f.hostPort == e.hostPort;
      assert Taken(rows, e);
    }
    if Taken(rows, e) {
      var id, f :| id in rows && (rows[id].status == Deploying || rows[id].status == Running)
                   && f in rows[id].endpoints && f.transport == e.transport && f.hostPort == e.hostPort;
      assert Uses(rows[id], e.transport, e.hostPort);
    }
  }

  /** A failed or refused deployment, a failed undeployment and a reconcile that misses the workload free all the ports. */
  lemma FailureFreesPorts(s: State, step: Step, e: Endpoint)
    requires Inv(s) && Enabled(s, step)
    requires step.DeployFailed? || step.DeployRefused? || step.FailUndeploy? || step.MarkInactive? || step.FinishUndeploy?
    ensures step.id in Next(s, step).rows ==>
              !Uses(Next(s, step).rows[step.id], e.transport, e.hostPort)
    ensures step.id in s.rows && Uses(s.rows[step.id], e.transport, e.hostPort) ==> !Taken(Next(s, step).rows, e)
  {
    hide IsManagedCaptureFile, Referenced, Accepts, Available, Bound, DistinctEndpoints, Fine, Uses, Taken, Enabled;
    StatusFrees(s, step, e);
    if step.id in s.rows && Uses(s.rows[step.id], e.transport, e.hostPort) && Taken(Next(s, step).rows, e) {
      OnlyHolder(s, Next(s, step).rows, step.id, e);
    }
  }

  lemma StatusFrees(s: State, step: Step, e: Endpoint)
    requires Inv(s) && Enabled(s, step)
    requires step.DeployFailed? || step.DeployRefused? || step.FailUndeploy? || step.MarkInactive? || step.FinishUndeploy?
    ensures step.id in Next(s, step).rows ==> !Uses(Next(s, step).rows[step.id], e.transport, e.hostPort)
    ensures forall other :: other in Next(s, step).rows && other != step.id ==>
              other in s.rows && Next(s, step).rows[other] == s.rows[other]
  {
    hide Inv;
  }

  lemma OnlyHolder(s: State, rows: Table, id: InstanceId, e: Endpoint)
    requires Exclusive(s.rows) && id in s.rows && Uses(s.rows[id], e.transport, e.hostPort)
    requires id in rows ==> !Uses(rows[id], e.transport, e.hostPort)
    requires forall other :: other in rows && other != id ==> other in s.rows && rows[other] == s.rows[other]
    ensures !Taken(rows, e)
  {
    if Taken(rows, e) {
      var other, f :| other in rows && (rows[other].status == Deploying || rows[other].status == Running)
                      && f in rows[other].endpoints && f.transport == e.transport && f.hostPort == e.hostPort;
      assert Uses(rows[other], e.transport, e.hostPort);
      var g :| g in s.rows[id].endpoints && g.transport == e.transport && g.hostPort == e.hostPort;
      var i :| 0 <= i < |s.rows[id].endpoints| && s.rows[id].endpoints[i] == g;
      var j :| 0 <= j < |s.rows[other].endpoints| && s.rows[other].endpoints[j] == f;
      assert TwoBindings(s.rows, id, i, other, j);
    }
  }

  ghost predicate RunningHaveWorkloads(rows: Table) {
    forall id :: id in rows && rows[id].status == Running ==> rows[id].workload.Some?
  }

  lemma RunningStep(s: State, step: Step)
    requires Inv(s) && Enabled(s, step) && RunningHaveWorkloads(s.rows)
    ensures RunningHaveWorkloads(Next(s, step).rows)
  {
    hide Next, Enabled, Inv;
    forall id | id in Next(s, step).rows && Next(s, step).rows[id].status == Running
      ensures Next(s, step).rows[id].workload.Some?
    {
      if id in s.rows {
        RowChangesExactly(s, step, id);
      } else {
        NewRowIsDeploying(s, step, id);
      }
    }
  }

  lemma NewRowIsDeploying(s: State, step: Step, id: InstanceId)
    requires Enabled(s, step) && id !in s.rows && id in Next(s, step).rows
    ensures step.Deploy? && step.id == id && Next(s, step).rows[id].status == Deploying
  {
    hide CaptureFileName, IsManagedCaptureFile, Referenced, Accepts, Available, Bound;
  }

  /** On every run an instance that runs has its workload. */
  lemma {:induction false} RunningInstancesHaveWorkloads(states: seq<State>)
    requires IsRun(states)
    ensures RunningHaveWorkloads(states[|states| - 1].rows)
  {
    hide Next, Enabled, Inv;
    var k := |states| - 1;
    if k > 0 {
      RunPrefix(states, k - 1);
      RunningInstancesHaveWorkloads(states[..k]);
      EveryRunKeepsInv(states[..k]);
      assert StepsTo(states[k - 1], states[k]);
      var step :| Enabled(states[k - 1], step) && states[k] == Next(states[k - 1], step);
      RunningStep(states[k - 1], step);
    }
  }

  /** On every run a capture may start on exactly the unlocked running instances without one: none lacks its workload. */
  lemma StartIsOpenExactly(states: seq<State>, id: InstanceId)
    requires IsRun(states)
    ensures var s := states[|states| - 1];
            Enabled(s, BeginStart(id)) <==>
              id in s.rows && id !in s.held && s.rows[id].status == Running && s.rows[id].capture != Capturing
  {
    hide StepsTo, Initial;
    RunningInstancesHaveWorkloads(states);
  }

  /** A deployment is let through exactly on a new id and a known rule, for ports that are neither 0 nor taken. */
  lemma DeployIsOpenExactly(s: State, id: InstanceId, rule: RuleId, protocol: Protocol, requested: map<EndpointId, Port>)
    ensures Enabled(s, Deploy(id, rule, protocol, requested)) <==>
            && id !in s.used && rule in s.rules
            && (forall eid :: eid in requested ==> requested[eid] > 0 && exists d :: d in Descriptor(protocol) && d.id == eid)
            && (forall d :: d in Descriptor(protocol) && d.required ==> d.id in requested)
            && (forall e :: e in Bound(Descriptor(protocol), requested) ==> !Taken(s.rows, e))
  {
    hide Bound, Descriptor, Available, Taken;
    AvailableExactly(s.rows, Bound(Descriptor(protocol), requested));
    forall eid | eid in requested
      ensures SpecById(Descriptor(protocol), eid).Some? <==> exists d :: d in Descriptor(protocol) && d.id == eid
    {
    }
  }

  // ---------------------------------------------------------------------------
  // What may always happen
  // ---------------------------------------------------------------------------

  /** No instance but `id` has changed. */
  ghost predicate OnlyChanges(s: State, t: State, id: InstanceId) {
    forall other: InstanceId :: other != id ==> ViewOf(t, other) == ViewOf(s, other)
  }

  lemma LocalStep(start: State, s: State, step: Step)
    requires Reached(s) && Enabled(s, step) && IsLocal(step) && OnlyChanges(start, s, step.id)
    ensures Reached(Next(s, step)) && Inv(s) && OnlyChanges(start, Next(s, step), step.id)
  {
    hide Enabled, Next, Reached, Fine, ViewOf;
    ReachNext(s, step);
    assert Fine(step.id, ViewOf(s, step.id));
    forall other | other != step.id
      ensures ViewOf(Next(s, step), other) == ViewOf(start, other)
    {
      OthersUntouched(s, step, other);
    }
  }

  /** Whoever holds an instance's lock can let it go in at most two steps of its own, whatever the others do. */
  lemma EveryLockIsReleased(s: State, id: InstanceId) returns (t: State)
    requires Reached(s) && id in s.held
    ensures Reached(t) && id !in t.held && OnlyChanges(s, t, id)
  {
    hide Reached, OnlyChanges, Accepts, Available, Bound, CaptureFileName, IsManagedCaptureFile, Referenced;
    NothingChanges(s, id);
    var section := s.held[id];
    if section.Undeploying? {
      LocalStep(s, s, RemoveFile(id));
      var removed := Next(s, RemoveFile(id));
      LocalStep(s, removed, FinishUndeploy(id));
      t := Next(removed, FinishUndeploy(id));
    } else {
      var step := match section
        case Undeployed(_) => FinishUndeploy(id)
        case Saved(_, _) => FinishFinalize(id)
        case Deleted(_) => FinishDelete(id)
        case _ => Abort(id);
      LocalStep(s, s, step);
      t := Next(s, step);
    }
  }

  lemma NothingChanges(s: State, id: InstanceId)
    ensures OnlyChanges(s, s, id)
  {
  }

  /** Any unlocked instance can be undeployed: its row and the file it refers to are gone then. */
  lemma UndeployCompletes(s: State, id: InstanceId) returns (t: State)
    requires Reached(s) && id in s.rows && id !in s.held
    ensures Reached(t) && id !in t.rows && id !in t.held && OnlyChanges(s, t, id)
    ensures s.rows[id].file.Some? ==> s.rows[id].file.value !in t.files
  {
    hide Reached, OnlyChanges, Accepts, Available, Bound, CaptureFileName, IsManagedCaptureFile, Referenced;
    NothingChanges(s, id);
    LocalStep(s, s, BeginUndeploy(id));
    var begun := Next(s, BeginUndeploy(id));
    LocalStep(s, begun, RemoveFile(id));
    var removed := Next(begun, RemoveFile(id));
    LocalStep(s, removed, FinishUndeploy(id));
    t := Next(removed, FinishUndeploy(id));
  }

  /** It can fail exactly when there is a workload to stop or a file to remove, and then leaves an error and no lock. */
  lemma UndeployFailsExactly(s: State, id: InstanceId)
    requires Reached(s) && id in s.rows && id !in s.held
    ensures Enabled(s, BeginUndeploy(id))
    ensures var begun := Next(s, BeginUndeploy(id));
            && (Enabled(begun, FailUndeploy(id)) <==> s.rows[id].workload.Some? || s.rows[id].file.Some?)
            && (Enabled(begun, FailUndeploy(id)) ==>
                 var t := Next(begun, FailUndeploy(id));
                 && Reached(t) && id in t.rows && id !in t.held && OnlyChanges(s, t, id)
                 && t.rows[id] == s.rows[id].(status := Error))
  {
    hide Reached, OnlyChanges, Accepts, Available, Bound, CaptureFileName, IsManagedCaptureFile, Referenced;
    NothingChanges(s, id);
    LocalStep(s, s, BeginUndeploy(id));
    var begun := Next(s, BeginUndeploy(id));
    if Enabled(begun, FailUndeploy(id)) {
      LocalStep(s, begun, FailUndeploy(id));
    }
  }

  /** A running instance can be captured from start to file, and its capture deleted, row and file, after that. */
  lemma CaptureCompletes(s: State, id: InstanceId, c: CaptureId, now: int) returns (ready: State, t: State)
    requires Reached(s) && id in s.rows && id !in s.held && c !in s.captures
    requires s.rows[id].status == Running && s.rows[id].capture != Capturing
    ensures Reached(ready) && id !in ready.held && OnlyChanges(s, ready, id)
    ensures ready.rows.Keys == s.rows.Keys && "pcap_" + id + ".pcap" in ready.files
    ensures ready.rows[id]
         == s.rows[id].(capture := Ready, startTime := None, captureId := None, file := Some("pcap_" + id + ".pcap"))
    ensures Reached(t) && id !in t.held && OnlyChanges(s, t, id)
    ensures t.rows.Keys == s.rows.Keys && "pcap_" + id + ".pcap" !in t.files
    ensures t.rows[id] == s.rows[id].(capture := Idle, startTime := None, captureId := None, file := None)
  {
    hide *;
    ReachedHasWorkload(s, id);
    var started := CaptureStarts(s, id, c, now);
    ready := CaptureFinishes(s, started, id);
    t := CaptureIsDeleted(s, ready, id);
  }

  lemma ReachedHasWorkload(s: State, id: InstanceId)
    requires Reached(s) && id in s.rows && s.rows[id].status == Running
    ensures s.rows[id].workload.Some?
  {
    hide StepsTo, Initial;
    var states :| IsRun(states) && states[|states| - 1] == s;
    RunningInstancesHaveWorkloads(states);
  }

  lemma CaptureStarts(s: State, id: InstanceId, c: CaptureId, now: int) returns (t: State)
    requires Reached(s) && id in s.rows && id !in s.held && c !in s.captures
    requires s.rows[id].status == Running && s.rows[id].workload.Some? && s.rows[id].capture != Capturing
    ensures Reached(t) && id !in t.held && OnlyChanges(s, t, id) && t.rows.Keys == s.rows.Keys
    ensures t.rows[id] == s.rows[id].(capture := Capturing, startTime := Some(now), captureId := Some(c), file := None)
  {
    hide Reached, OnlyChanges, Accepts, Available, Bound, CaptureFileName, IsManagedCaptureFile, Referenced, Inv;
    NothingChanges(s, id);
    LocalStep(s, s, BeginStart(id));
    var begun := Next(s, BeginStart(id));
    LocalStep(s, begun, FinishStart(id, c, now));
    t := Next(begun, FinishStart(id, c, now));
  }

  lemma CaptureFinishes(start: State, s: State, id: InstanceId) returns (t: State)
    requires Reached(s) && OnlyChanges(start, s, id) && id in s.rows && id !in s.held
    requires s.rows[id].capture == Capturing && s.rows[id].captureId.Some? && s.rows[id].workload.Some?
    ensures Reached(t) && id !in t.held && OnlyChanges(start, t, id) && t.rows.Keys == s.rows.Keys
    ensures "pcap_" + id + ".pcap" in t.files
    ensures t.rows[id] == s.rows[id].(capture := Ready, startTime := None, captureId := None, file := Some("pcap_" + id + ".pcap"))
  {
    hide Reached, OnlyChanges, Accepts, Available, Bound, CaptureFileName, IsManagedCaptureFile, Referenced, Inv;
    NameIsManaged(id);
    LocalStep(start, s, BeginFinalize(id, None));
    var begun := Next(s, BeginFinalize(id, None));
    LocalStep(start, begun, SaveFile(id));
    var saved := Next(begun, SaveFile(id));
    LocalStep(start, saved, FinishFinalize(id));
    t := Next(saved, FinishFinalize(id));
  }

  lemma CaptureIsDeleted(start: State, s: State, id: InstanceId) returns (t: State)
    requires Reached(s) && OnlyChanges(start, s, id) && id in s.rows && id !in s.held
    requires s.rows[id].file == Some("pcap_" + id + ".pcap")
    ensures Reached(t) && id !in t.held && OnlyChanges(start, t, id) && t.rows.Keys == s.rows.Keys
    ensures "pcap_" + id + ".pcap" !in t.files
    ensures t.rows[id] == s.rows[id].(capture := Idle, startTime := None, captureId := None, file := None)
  {
    hide Reached, OnlyChanges, Accepts, Available, Bound, CaptureFileName, IsManagedCaptureFile, Referenced, Inv;
    LocalStep(start, s, BeginDelete(id));
    var begun := Next(s, BeginDelete(id));
    LocalStep(start, begun, DeleteFile(id));
    var deleted := Next(begun, DeleteFile(id));
    LocalStep(start, deleted, FinishDelete(id));
    t := Next(deleted, FinishDelete(id));
  }

  /** A deployment that is out can be answered in three ways: it runs with its workload, is dropped, or is an error. */
  lemma DeploymentIsAnswered(s: State, id: InstanceId, w: WorkloadId)
    requires Reached(s) && id in s.deploys
    ensures Enabled(s, DeployStarted(id, w)) && Enabled(s, DeployRefused(id)) && Enabled(s, DeployFailed(id))
    ensures var started, refused, failed := Next(s, DeployStarted(id, w)), Next(s, DeployRefused(id)), Next(s, DeployFailed(id));
            && id !in started.deploys && id !in refused.deploys && id !in failed.deploys && id !in refused.rows
            && (id in s.rows ==>
                 && id in started.rows && id in failed.rows
                 && started.rows[id] == s.rows[id].(status := Running, workload := Some(w))
                 && failed.rows[id] == s.rows[id].(status := Error))
            && (id !in s.rows ==> started.rows == failed.rows == s.rows)
  {
  }

  /** A reconcile scan can take any active instance that has a workload to inactive. */
  lemma ReconcileMarks(s: State, id: InstanceId) returns (t: State)
    requires Reached(s) && id in s.rows && s.rows[id].workload.Some?
    requires s.rows[id].status == Deploying || s.rows[id].status == Running
    ensures Reached(t) && id in t.rows && t.rows[id] == s.rows[id].(status := Inactive) && OnlyChanges(s, t, id)
  {
    hide Reached, OnlyChanges, Accepts, Available, Bound, CaptureFileName, IsManagedCaptureFile, Referenced;
    NothingChanges(s, id);
    LocalStep(s, s, Observe(id));
    var seen := Next(s, Observe(id));
    LocalStep(s, seen, MarkInactive(id));
    t := Next(seen, MarkInactive(id));
  }
}
