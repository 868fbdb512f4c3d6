/**
 The table of per-instance locks. A table entry is a weak reference: it keeps no mutex alive. A mutex lives while
 some task waits for it or owns it. The steps are as fine as the interleaving: while one task prunes the table entry
 by entry under the outer lock, others may take their inner lock or drop it between any two steps.
 */
module LockTable {
  type InstanceId(==, !new)
  type Task(==, !new)

  /**
   `Pruning` and `Found` hold the outer lock. `unseen` are the entries the pruning has still to look at; `dead` is
   history: the entries that were dead when the call began.
   */
  datatype Phase =
    | Away
    | Pruning(id: InstanceId, unseen: set<InstanceId>, dead: set<InstanceId>)
    | Found(id: InstanceId, mutex: nat)
    | Waiting(id: InstanceId, mutex: nat)
    | Owning(id: InstanceId, mutex: nat)

  /** Mutexes are numbered in the order they are created. */
  datatype State = State(table: map<InstanceId, nat>, created: nat, phases: map<Task, Phase>)

  function PhaseOf(s: State, t: Task): Phase {
    if t in s.phases then s.phases[t] else Away
  }

  predicate HasMutex(phase: Phase) {
    phase.Found? || phase.Waiting? || phase.Owning?
  }

  predicate HasOuter(phase: Phase) {
    phase.Pruning? || phase.Found?
  }

  /** The strong count is positive. */
  ghost predicate Alive(s: State, mutex: nat) {
    exists t :: HasMutex(PhaseOf(s, t)) && PhaseOf(s, t).mutex == mutex
  }

  ghost predicate OuterFree(s: State) {
    forall t :: !HasOuter(PhaseOf(s, t))
  }

  ghost predicate InnerFree(s: State, mutex: nat) {
    forall t :: PhaseOf(s, t).Owning? ==> PhaseOf(s, t).mutex != mutex
  }

  /** `Leave` is a dropped guard or a wait given up. */
  datatype Step =
    | TakeOuter(t: Task, id: InstanceId)
    | RetainOne(t: Task, key: InstanceId)
    | Resolve(t: Task)
    | ReleaseOuter(t: Task)
    | Acquire(t: Task)
    | Leave(t: Task)

  ghost predicate Enabled(s: State, step: Step) {
    var phase := PhaseOf(s, step.t);
    match step
    case TakeOuter(_, _) => phase.Away? && OuterFree(s)
    case RetainOne(_, key) => phase.Pruning? && key in phase.unseen
    case Resolve(_) => phase.Pruning? && phase.unseen == {}
    case ReleaseOuter(_) => phase.Found?
    case Acquire(_) => phase.Waiting? && InnerFree(s, phase.mutex)
    case Leave(_) => phase.Waiting? || phase.Owning?
  }

  ghost function DeadEntries(s: State): set<InstanceId> {
    set id | id in s.table && !Alive(s, s.table[id])
  }

  ghost function Next(s: State, step: Step): State
    requires Enabled(s, step)
  {
    var t, phase := step.t, PhaseOf(s, step.t);
    match step
    case TakeOuter(_, id) => s.(phases := s.phases[t := Pruning(id, s.table.Keys, DeadEntries(s))])
    case RetainOne(_, key) =>
      s.(table := if key in s.table && !Alive(s, s.table[key]) then s.table - {key} else s.table,
         phases := s.phases[t := phase.(unseen := phase.unseen - {key})])
    case Resolve(_) =>
      if phase.id in s.table && Alive(s, s.table[phase.id])
      then s.(phases := s.phases[t := Found(phase.id, s.table[phase.id])])
      else s.(table := s.table[phase.id := s.created], created := s.created + 1,
              phases := s.phases[t := Found(phase.id, s.created)])
    case ReleaseOuter(_) => s.(phases := s.phases[t := Waiting(phase.id, phase.mutex)])
    case Acquire(_) => s.(phases := s.phases[t := Owning(phase.id, phase.mutex)])
    case Leave(_) => s.(phases := s.phases[t := Away])
  }

  const Initial: State := State(map[], 0, map[])

  ghost predicate StepsTo(s: State, t: State) {
    exists step :: Enabled(s, step) && t == Next(s, step)
  }

  ghost predicate IsRun(states: seq<State>) {
    && states != [] && states[0] == Initial
    && forall i :: 0 < i < |states| ==> StepsTo(states[i - 1], states[i])
  }

  // ---------------------------------------------------------------------------
  // Invariants
  // ---------------------------------------------------------------------------

  /** Every live mutex is the one its id maps to. */
  ghost predicate LiveAreMapped(s: State) {
    forall t :: HasMutex(PhaseOf(s, t)) ==> PhaseOf(s, t).id in s.table && s.table[PhaseOf(s, t).id] == PhaseOf(s, t).mutex
  }

  /** No mutex serves two ids. */
  ghost predicate OneIdEach(s: State) {
    && (forall id :: id in s.table ==> s.table[id] < s.created)
    && (forall a, b :: a in s.table && b in s.table && a != b ==> s.table[a] != s.table[b])
  }

  ghost predicate OneOuter(s: State) {
    forall t, u :: HasOuter(PhaseOf(s, t)) && HasOuter(PhaseOf(s, u)) ==> t == u
  }

  ghost predicate OneInner(s: State) {
    forall t, u :: PhaseOf(s, t).Owning? && PhaseOf(s, u).Owning? && PhaseOf(s, t).mutex == PhaseOf(s, u).mutex ==> t == u
  }

  /** Entries found dead at the start of a call stay dead until the pruning drops them. */
  ghost predicate DeadAreDropped(s: State) {
    forall t, id :: PhaseOf(s, t).Pruning? && id in PhaseOf(s, t).dead && id in s.table ==>
      id in PhaseOf(s, t).unseen && !Alive(s, s.table[id])
  }

  ghost predicate Inv(s: State) {
    LiveAreMapped(s) && OneIdEach(s) && OneOuter(s) && OneInner(s) && DeadAreDropped(s)
  }

  lemma OthersStay(s: State, step: Step)
    requires Enabled(s, step)
    ensures forall t :: t != step.t ==> PhaseOf(Next(s, step), t) == PhaseOf(s, t)
  {
    hide DeadEntries, InnerFree, OuterFree, Alive;
  }

  lemma MappedStep(s: State, step: Step)
    requires LiveAreMapped(s) && OneIdEach(s) && Enabled(s, step)
    ensures LiveAreMapped(Next(s, step))
  {
    hide DeadEntries, OuterFree, InnerFree;
    var after := Next(s, step);
    forall t | HasMutex(PhaseOf(after, t))
      ensures PhaseOf(after, t).id in after.table && after.table[PhaseOf(after, t).id] == PhaseOf(after, t).mutex
    {
      if t != step.t {
        assert PhaseOf(after, t) == PhaseOf(s, t);
        assert Alive(s, PhaseOf(s, t).mutex);
      }
    }
  }

  lemma IdsStep(s: State, step: Step)
    requires OneIdEach(s) && Enabled(s, step)
    ensures OneIdEach(Next(s, step))
  {
    hide DeadEntries, OuterFree, InnerFree, Alive;
  }

  lemma OuterStep(s: State, step: Step)
    requires OneOuter(s) && Enabled(s, step)
    ensures OneOuter(Next(s, step))
  {
    hide DeadEntries, InnerFree, Alive;
    OthersStay(s, step);
  }

  lemma InnerStep(s: State, step: Step)
    requires OneInner(s) && Enabled(s, step)
    ensures OneInner(Next(s, step))
  {
    hide DeadEntries, OuterFree, Alive;
    OthersStay(s, step);
  }

  /** Whatever a step leaves alive was alive before, unless it resolved that very mutex. */
  lemma AliveStep(s: State, step: Step, mutex: nat)
    requires Enabled(s, step) && Alive(Next(s, step), mutex)
    ensures Alive(s, mutex) || (step.Resolve? && mutex == s.created)
  {
    hide DeadEntries, OuterFree, InnerFree;
    var after := Next(s, step);
    var t :| HasMutex(PhaseOf(after, t)) && PhaseOf(after, t).mutex == mutex;
    if t != step.t {
      assert PhaseOf(after, t) == PhaseOf(s, t);
    } else {
      assert step.Resolve? || PhaseOf(s, t).mutex == mutex;
    }
  }

  lemma DeadStep(s: State, step: Step)
    requires DeadAreDropped(s) && OneOuter(s) && OneIdEach(s) && Enabled(s, step)
    ensures DeadAreDropped(Next(s, step))
  {
    hide OuterFree, InnerFree, Alive;
    var after := Next(s, step);
    forall t, id | PhaseOf(after, t).Pruning? && id in PhaseOf(after, t).dead && id in after.table
      ensures id in PhaseOf(after, t).unseen && !Alive(after, after.table[id])
    {
      if t != step.t {
        assert PhaseOf(after, t) == PhaseOf(s, t);
      }
      if Alive(after, after.table[id]) {
        AliveStep(s, step, after.table[id]);
      }
    }
  }

  lemma InitialInv()
    ensures Inv(Initial)
  {
  }

  lemma InvStep(s: State, step: Step)
    requires Inv(s) && Enabled(s, step)
    ensures Inv(Next(s, step))
  {
    hide Next, Enabled, LiveAreMapped, OneIdEach, OneOuter, OneInner, DeadAreDropped;
    MappedStep(s, step);
    IdsStep(s, step);
    OuterStep(s, step);
    InnerStep(s, step);
    DeadStep(s, step);
  }

  lemma {:induction false} EveryRunKeepsInv(states: seq<State>)
    requires IsRun(states)
    ensures Inv(states[|states| - 1])
  {
    hide Next, Enabled, Inv;
    var k := |states| - 1;
    if k == 0 {
      InitialInv();
    } else {
      RunPrefix(states);
      EveryRunKeepsInv(states[..k]);
      assert StepsTo(states[k - 1], states[k]);
      var step :| Enabled(states[k - 1], step) && states[k] == Next(states[k - 1], step);
      InvStep(states[k - 1], step);
    }
  }

  lemma RunPrefix(states: seq<State>)
    requires IsRun(states) && |states| > 1
    ensures IsRun(states[..|states| - 1])
  {
    hide StepsTo;
  }

  // ---------------------------------------------------------------------------
  // What the locks promise
  // ---------------------------------------------------------------------------

  /** No two tasks own the lock of one instance. */
  lemma MutualExclusion(states: seq<State>, t: Task, u: Task)
    requires IsRun(states)
    requires PhaseOf(states[|states| - 1], t).Owning? && PhaseOf(states[|states| - 1], u).Owning?
    requires PhaseOf(states[|states| - 1], t).id == PhaseOf(states[|states| - 1], u).id
    ensures t == u
  {
    EveryRunKeepsInv(states);
  }

  /** Two tasks hold one mutex exactly when they asked for one instance: no second mutex is ever live for an id. */
  lemma SameIdSameMutex(states: seq<State>, t: Task, u: Task)
    requires IsRun(states)
    requires HasMutex(PhaseOf(states[|states| - 1], t)) && HasMutex(PhaseOf(states[|states| - 1], u))
    ensures PhaseOf(states[|states| - 1], t).mutex == PhaseOf(states[|states| - 1], u).mutex
       <==> PhaseOf(states[|states| - 1], t).id == PhaseOf(states[|states| - 1], u).id
  {
    EveryRunKeepsInv(states);
  }

  /** A waiting task is blocked exactly by an owner of the same instance's lock. */
  lemma OnlySameIdBlocks(states: seq<State>, t: Task)
    requires IsRun(states) && PhaseOf(states[|states| - 1], t).Waiting?
    ensures var s := states[|states| - 1];
            !Enabled(s, Acquire(t)) <==> exists u :: PhaseOf(s, u).Owning? && PhaseOf(s, u).id == PhaseOf(s, t).id
  {
    EveryRunKeepsInv(states);
  }

  /** A call drops every entry that was dead when it began; only its own id may be mapped anew. */
  lemma DeadEntriesAreGone(states: seq<State>, t: Task, id: InstanceId)
    requires IsRun(states) && Enabled(states[|states| - 1], Resolve(t)) && id in PhaseOf(states[|states| - 1], t).dead
    ensures id !in states[|states| - 1].table
    ensures id in Next(states[|states| - 1], Resolve(t)).table <==> id == PhaseOf(states[|states| - 1], t).id
  {
    EveryRunKeepsInv(states);
  }

  // ---------------------------------------------------------------------------
  // What they do not prevent
  // ---------------------------------------------------------------------------

  function Last(states: seq<State>): State
    requires states != []
  {
    states[|states| - 1]
  }

  ghost predicate OthersKeep(s: State, z: State, t: Task) {
    forall u :: u != t ==> PhaseOf(z, u) == PhaseOf(s, u)
  }

  /** `longer` is the same run gone on by `more` steps, after which all but task `t` are where they were. */
  ghost predicate GoesOn(states: seq<State>, longer: seq<State>, t: Task, more: nat) {
    && IsRun(states) && IsRun(longer) && |longer| == |states| + more && longer[..|states|] == states
    && OthersKeep(Last(states), Last(longer), t)
  }

  lemma GoOn(states: seq<State>, longer: seq<State>, step: Step, more: nat) returns (next: seq<State>)
    requires GoesOn(states, longer, step.t, more) && Enabled(Last(longer), step)
    ensures GoesOn(states, next, step.t, more + 1) && Last(next) == Next(Last(longer), step)
  {
    hide Enabled, Next, PhaseOf;
    OthersStay(Last(longer), step);
    next := longer + [Next(Last(longer), step)];
    assert StepsTo(Last(longer), Last(next));
    assert next[..|states|] == longer[..|states|];
  }

  /** The pruning comes to its end, whatever the others hold. */
  lemma {:induction false} PruningEnds(states: seq<State>, longer: seq<State>, t: Task, more: nat) returns (done: seq<State>)
    requires GoesOn(states, longer, t, more) && PhaseOf(Last(longer), t).Pruning?
    ensures GoesOn(states, done, t, more + |PhaseOf(Last(longer), t).unseen|)
    ensures PhaseOf(Last(done), t) == PhaseOf(Last(longer), t).(unseen := {})
    decreases |PhaseOf(Last(longer), t).unseen|
  {
    hide StepsTo, OthersKeep, Alive, OuterFree, InnerFree;
    var unseen := PhaseOf(Last(longer), t).unseen;
    if unseen == {} {
      done := longer;
    } else {
      var key :| key in unseen;
      var next := GoOn(states, longer, RetainOne(t, key), more);
      assert PhaseOf(Last(next), t).unseen == unseen - {key};
      done := PruningEnds(states, next, t, more + 1);
    }
  }

  /** A call that finds the outer lock free gets to wait for its instance's lock, whatever the others hold. */
  lemma CallGetsToWait(states: seq<State>, t: Task, id: InstanceId) returns (longer: seq<State>)
    requires IsRun(states) && PhaseOf(Last(states), t).Away? && OuterFree(Last(states))
    ensures GoesOn(states, longer, t, |Last(states).table.Keys| + 3)
    ensures PhaseOf(Last(longer), t).Waiting? && PhaseOf(Last(longer), t).id == id
  {
    hide StepsTo, OthersKeep, Alive, OuterFree, InnerFree;
    NothingYet(states, t);
    longer := GoOn(states, states, TakeOuter(t, id), 0);
    longer := PruningEnds(states, longer, t, 1);
    longer := GoOn(states, longer, Resolve(t), 1 + |Last(states).table.Keys|);
    longer := GoOn(states, longer, ReleaseOuter(t), 2 + |Last(states).table.Keys|);
  }

  lemma NothingYet(states: seq<State>, t: Task)
    requires IsRun(states)
    ensures GoesOn(states, states, t, 0)
  {
  }

  /** And it gets the lock itself when no one owns that of its instance. */
  lemma UncontestedCallOwns(states: seq<State>, t: Task, id: InstanceId) returns (longer: seq<State>)
    requires IsRun(states) && PhaseOf(Last(states), t).Away? && OuterFree(Last(states))
    requires forall u :: PhaseOf(Last(states), u).Owning? ==> PhaseOf(Last(states), u).id != id
    ensures GoesOn(states, longer, t, |Last(states).table.Keys| + 4)
    ensures PhaseOf(Last(longer), t).Owning? && PhaseOf(Last(longer), t).id == id
  {
    hide StepsTo, Enabled, OuterFree;
    longer := CallGetsToWait(states, t, id);
    OnlySameIdBlocks(longer, t);
    longer := GoOn(states, longer, Acquire(t), |Last(states).table.Keys| + 3);
  }

  /** When the owner drops its guard, any task waiting for the same instance may be next. */
  lemma LockIsHandedOver(states: seq<State>, t: Task, u: Task)
    requires IsRun(states) && PhaseOf(Last(states), t).Owning? && PhaseOf(Last(states), u).Waiting?
    requires PhaseOf(Last(states), t).id == PhaseOf(Last(states), u).id
    ensures !Enabled(Last(states), Acquire(u)) && Enabled(Last(states), Leave(t))
    ensures var left := Next(Last(states), Leave(t));
            && PhaseOf(left, t) == Away && Enabled(left, Acquire(u))
            && PhaseOf(Next(left, Acquire(u)), u) == Owning(PhaseOf(Last(states), u).id, PhaseOf(Last(states), u).mutex)
  {
    EveryRunKeepsInv(states);
    SameIdSameMutex(states, t, u);
    OthersStay(Last(states), Leave(t));
  }
}
