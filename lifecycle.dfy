/** A node's activation flag and save scheduling: Active, Deactive,
    ScheduledSave and IsActive. */
module Lifecycle {
  import opened Values
  import opened Entities
  import opened Pipeline
  import opened EntityOps

  /** Every held entity with its activation flag set. */
  function ActivateAll(store: map<Nuid, EntityView>): (r: map<Nuid, EntityView>)
    ensures r.Keys == store.Keys
    ensures forall id :: id in r ==> r[id] == store[id].(activated := true)
  {
    map id | id in store :: store[id].(activated := true)
  }

  /** Entry replayed for each id of `order`, first to last. */
  function EntryAll(reg: Prefabs.Registry, s: NodeState, identity: int, order: seq<Nuid>,
                    activeNodes: set<int>): (r: NodeState)
    decreases |order|
  {
    if order == [] then s
    else Entry(reg, EntryAll(reg, s, identity, order[..|order| - 1], activeNodes),
               identity, order[|order| - 1], activeNodes)
  }

  /** Active: every held entity is activated, Entry is replayed for each of
      them in `order`, and only then is the node activated. */
  function Active(reg: Prefabs.Registry, s: NodeState, identity: int, order: seq<Nuid>,
                  activeNodes: set<int>): (r: NodeState)
    ensures r.activated
    ensures r.store == ActivateAll(s.store)
  {
    ActiveReplayKeepsStore(reg, s.(store := ActivateAll(s.store)), identity, order, activeNodes);
    EntryAll(reg, s.(store := ActivateAll(s.store)), identity, order, activeNodes).(activated := true)
  }

  /** The replays change neither the entities nor the node's flag, and only
      append to the traces. */
  lemma {:induction false} ActiveReplayKeepsStore(reg: Prefabs.Registry, s: NodeState, identity: int,
                                                  order: seq<Nuid>, activeNodes: set<int>)
    ensures var r := EntryAll(reg, s, identity, order, activeNodes);
      r.store == s.store && r.activated == s.activated && r.saves == s.saves && Extends(s, r)
    decreases |order|
  {
    if order != [] {
      ActiveReplayKeepsStore(reg, s, identity, order[..|order| - 1], activeNodes);
    }
  }

  /** While the node is inactive, replayed entries send nothing to the
      agent. */
  lemma {:induction false} ReplayWhileInactiveIsSilent(reg: Prefabs.Registry, s: NodeState, identity: int,
                                                       order: seq<Nuid>, activeNodes: set<int>)
    requires !s.activated
    ensures EntryAll(reg, s, identity, order, activeNodes).sent == s.sent
    decreases |order|
  {
    if order != [] {
      var prefix := order[..|order| - 1];
      ReplayWhileInactiveIsSilent(reg, s, identity, prefix, activeNodes);
      ActiveReplayKeepsStore(reg, s, identity, prefix, activeNodes);
    }
  }

  /** Activating an inactive node sends nothing to the agent: the node's
      flag is raised only after the replays. */
  lemma ActiveSendsNothing(reg: Prefabs.Registry, s: NodeState, identity: int, order: seq<Nuid>,
                           activeNodes: set<int>)
    requires !s.activated
    ensures Active(reg, s, identity, order, activeNodes).sent == s.sent
  {
    ReplayWhileInactiveIsSilent(reg, s.(store := ActivateAll(s.store)), identity, order, activeNodes);
  }

  /** Once active, every held entity passes the sync gate. */
  lemma ActiveOpensGate(reg: Prefabs.Registry, s: NodeState, identity: int, order: seq<Nuid>,
                        activeNodes: set<int>, id: Nuid)
    requires id in s.store
    ensures SyncGate(Active(reg, s, identity, order, activeNodes), id)
  {
  }

  /** Deactive: the flag drops, then a save runs. */
  function Deactive(s: NodeState): (r: NodeState)
    ensures !r.activated && r.saves == s.saves + 1
    ensures r.(activated := s.activated, saves := s.saves) == s
  {
    s.(activated := false, saves := s.saves + 1)
  }

  /** ScheduledSave: a save runs only while the node is active. */
  function ScheduledSave(s: NodeState): (r: NodeState)
    ensures r.saves == if s.activated then s.saves + 1 else s.saves
    ensures r.(saves := s.saves) == s
  {
    if !s.activated then s else s.(saves := s.saves + 1)
  }

  /** After Deactive, no further sync reaches the agent and scheduled saves
      stop. */
  lemma DeactiveClosesGate(s: NodeState, id: Nuid)
    ensures !SyncGate(Deactive(s), id)
    ensures ScheduledSave(Deactive(s)) == Deactive(s)
  {
  }
}
