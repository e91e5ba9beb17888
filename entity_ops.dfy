/** The entity operations of a node on the hot (Grain) path: existence and
    type queries, creation, entry, loading, leaving and destruction. An id
    whose origin is another node is handed to that node. */
module EntityOps {
  import opened Values
  import opened Prefabs
  import opened Entities
  import opened Pipeline

  /** The dispatches an entity event makes for an entity of type `t`: one
      per type of its chain, none for an unregistered type. */
  function EntityDispatch(reg: Registry, t: string, id: Nuid, event: EntityEvent, args: seq<Value>): seq<Call>
  {
    if t in reg then EntityCalls(Chain(reg[t].ancestors, t), id, event, args) else []
  }

  /** Exists: the owning node's answer (`remote`) for a foreign id, otherwise
      whether the entity is held here. */
  function Exists(s: NodeState, identity: int, id: Nuid, remote: bool): (r: (NodeState, bool))
    ensures id.origin != identity ==> r.0 == ForwardTo(s, id.origin, ExistsOp(id)) && r.1 == remote
    ensures id.origin == identity ==> r.0 == s && (r.1 <==> id in s.store)
  {
    if id.origin != identity then (ForwardTo(s, id.origin, ExistsOp(id)), remote)
    else (s, id in s.store)
  }

  /** GetType: the entity's type, or NULL_STRING ("") when it is not here. */
  function GetType(s: NodeState, identity: int, id: Nuid, remote: string): (r: (NodeState, string))
    ensures id.origin != identity ==> r.0 == ForwardTo(s, id.origin, GetTypeOp(id)) && r.1 == remote
    ensures id.origin == identity ==> r.0 == s
    ensures id.origin == identity && id in s.store ==> r.1 == s.store[id].etype
    ensures id.origin == identity && id !in s.store ==> r.1 == ""
  {
    if id.origin != identity then (ForwardTo(s, id.origin, GetTypeOp(id)), remote)
    else if id !in s.store then (s, "")
    else (s, s.store[id].etype)
  }

  /** Create(id, type, args): on a foreign id the owner's reply. Here,
      Nuid.Empty and no change when EntityManager.Create refuses (empty id,
      id taken, unknown type); otherwise the generated entity is stored under
      `id`, OnCreate is dispatched along the type's chain with the caller's
      arguments, and `id` is returned. */
  function Create(reg: Registry, s: NodeState, identity: int, id: Nuid, etype: string,
                  args: seq<Value>, remote: Nuid): (r: (NodeState, Nuid))
    ensures Coherent(s) ==> Coherent(r.0)
    ensures Extends(s, r.0) && r.0.activated == s.activated && r.0.sent == s.sent && r.0.saves == s.saves
    ensures id.origin != identity ==> r.0 == ForwardTo(s, id.origin, CreateOp(id, etype, args)) && r.1 == remote
    ensures id.origin == identity ==>
      (r.1 == EmptyId <==> id == EmptyId || id in s.store || etype !in reg)
    ensures id.origin == identity && r.1 == EmptyId ==> r.0 == s
    ensures id.origin == identity && r.1 != EmptyId ==>
      && r.1 == id
      && r.0.store == s.store[id := GenView(reg[etype]).(id := id)]
      && r.0.calls == s.calls + EntityCalls(Chain(reg[etype].ancestors, etype), id, OnCreate, args)
      && r.0.forwarded == s.forwarded
  {
    if id.origin != identity then (ForwardTo(s, id.origin, CreateOp(id, etype, args)), remote)
    else if id == EmptyId || id in s.store || etype !in reg then (s, EmptyId)
    else
      var added := s.(store := s.store[id := GenView(reg[etype]).(id := id)]);
      (CallbackEntity(reg, added, id, etype, OnCreate, args), id)
  }

  /** Create(type, origin, args): the id is a fresh unique paired with the
      origin's node. */
  function CreateIn(reg: Registry, s: NodeState, identity: int, etype: string, origin: Nuid,
                    args: seq<Value>, unique: int, remote: Nuid): (r: (NodeState, Nuid))
    ensures origin.origin == identity && r.1 != EmptyId ==>
      r.1 == Nuid(unique, identity) && r.1 in r.0.store && r.1 !in s.store
    ensures origin.origin != identity ==>
      r.0.forwarded == s.forwarded + [Forward(origin.origin, CreateOp(Nuid(unique, origin.origin), etype, args))]
    ensures r == Create(reg, s, identity, Nuid(unique, origin.origin), etype, args, remote)
  {
    Create(reg, s, identity, Nuid(unique, origin.origin), etype, args, remote)
  }

  /** Entry: handed on when the owner is another node that reports active;
      nothing when the entity is not here; otherwise OnEntry along the chain
      and an entry sync carrying the entity. */
  function Entry(reg: Registry, s: NodeState, identity: int, id: Nuid, activeNodes: set<int>): (r: NodeState)
    ensures r.store == s.store && r.activated == s.activated && r.saves == s.saves && Extends(s, r)
    ensures id.origin != identity && id.origin in activeNodes ==> r == ForwardTo(s, id.origin, EntryOp(id))
    ensures !(id.origin != identity && id.origin in activeNodes) ==>
      && r.forwarded == s.forwarded
      && r.sent == (if SyncGate(s, id) then s.sent + [EntitySync(id, OnEntry, Some(s.store[id]))] else s.sent)
      && (id !in s.store ==> r == s)
    ensures !(id.origin != identity && id.origin in activeNodes) && id in s.store ==>
      r.calls == s.calls + EntityDispatch(reg, s.store[id].etype, id, OnEntry, [])
  {
    if id.origin != identity && id.origin in activeNodes then ForwardTo(s, id.origin, EntryOp(id))
    else if id !in s.store then s
    else
      var called := CallbackEntity(reg, s, id, s.store[id].etype, OnEntry, []);
      Sync(called, id, EntitySync(id, OnEntry, Some(called.store[id])))
  }

  /** Load: a loaded entity replaces whatever is held under its id
      (Find, Remove, Add), then OnLoad runs along its chain. */
  function Load(reg: Registry, s: NodeState, entity: Option<EntityView>): (r: NodeState)
    ensures Coherent(s) ==> Coherent(r)
    ensures Extends(s, r) && r.sent == s.sent && r.forwarded == s.forwarded && r.activated == s.activated
    ensures r.saves == s.saves
    ensures entity.None? ==> r == s
    ensures entity.Some? ==> r.store == s.store[entity.value.id := entity.value]
    ensures entity.Some? ==>
      r.calls == s.calls + EntityDispatch(reg, entity.value.etype, entity.value.id, OnLoad, [])
  {
    match entity
    case None => s
    case Some(e) =>
      var added := s.(store := s.store[e.id := e]);
      CallbackEntity(reg, added, e.id, e.etype, OnLoad, [])
  }

  /** Leave: OnLeave and a leave sync for an entity held here; nothing for
      another own id; handed on when the owner reports active. */
  function Leave(reg: Registry, s: NodeState, identity: int, id: Nuid, activeNodes: set<int>): (r: NodeState)
    ensures r.store == s.store && r.activated == s.activated && r.saves == s.saves && Extends(s, r)
    ensures r.sent == if SyncGate(s, id) then s.sent + [EntitySync(id, OnLeave, None)] else s.sent
    ensures r.forwarded ==
      if id !in s.store && id.origin != identity && id.origin in activeNodes
      then s.forwarded + [Forward(id.origin, LeaveOp(id))] else s.forwarded
    ensures id !in s.store ==> r.calls == s.calls
    ensures id in s.store ==> r.calls == s.calls + EntityDispatch(reg, s.store[id].etype, id, OnLeave, [])
  {
    if id in s.store then
      var called := CallbackEntity(reg, s, id, s.store[id].etype, OnLeave, []);
      Sync(called, id, EntitySync(id, OnLeave, None))
    else if id.origin == identity then s
    else if id.origin in activeNodes then ForwardTo(s, id.origin, LeaveOp(id))
    else s
  }

  /** Destroy as the source has it: a successful EntityManager.Remove is
      taken for a failure and returns early, so the entity disappears without
      OnDestroy and without a sync. */
  function DestroyAsWritten(s: NodeState, identity: int, id: Nuid, activeNodes: set<int>): (r: NodeState)
    ensures Coherent(s) ==> Coherent(r)
    ensures r.store == if id.origin != identity && id.origin in activeNodes then s.store else s.store - {id}
    ensures id.origin != identity && id.origin in activeNodes ==> r == ForwardTo(s, id.origin, DestroyOp(id))
    ensures !(id.origin != identity && id.origin in activeNodes) ==> r == s.(store := s.store - {id})
  {
    if id.origin != identity && id.origin in activeNodes then ForwardTo(s, id.origin, DestroyOp(id))
    else if id !in s.store then s
    else s.(store := s.store - {id})
  }

  /** Destroy as intended: the Remove check the other way round, and the
      entity's type taken while it is still held (CallbackEntity resolves the
      type through the manager, which no longer has it after Remove, and the
      cache fallback is never written on the hot path). The entity is
      removed, OnDestroy runs along its type's chain, then the destroy sync
      is attempted. */
  function Destroy(reg: Registry, s: NodeState, identity: int, id: Nuid, activeNodes: set<int>): (r: NodeState)
    ensures Coherent(s) ==> Coherent(r)
    ensures Extends(s, r) && r.activated == s.activated && r.saves == s.saves
    ensures id.origin != identity && id.origin in activeNodes ==> r == ForwardTo(s, id.origin, DestroyOp(id))
    ensures !(id.origin != identity && id.origin in activeNodes) ==>
      && r.store == s.store - {id} && r.forwarded == s.forwarded
      && (id !in s.store ==> r == s)
      && (id in s.store ==> r.calls == s.calls + EntityDispatch(reg, s.store[id].etype, id, OnDestroy, []))
  {
    if id.origin != identity && id.origin in activeNodes then ForwardTo(s, id.origin, DestroyOp(id))
    else if id !in s.store then s
    else
      var etype := s.store[id].etype;
      var removed := s.(store := s.store - {id});
      var called := CallbackEntity(reg, removed, id, etype, OnDestroy, []);
      Sync(called, id, EntitySync(id, OnDestroy, None))
  }

  /** As written, Destroy never notifies anyone: no dispatch, no message. */
  lemma DestroyAsWrittenIsSilent(s: NodeState, identity: int, id: Nuid, activeNodes: set<int>)
    ensures DestroyAsWritten(s, identity, id, activeNodes).calls == s.calls
    ensures DestroyAsWritten(s, identity, id, activeNodes).sent == s.sent
  {
  }

  /** The finding in one instance: an own entity is destroyed, yet OnDestroy
      is dispatched by the corrected operation only. */
  lemma DestroyDiscrepancy(reg: Registry, s: NodeState, identity: int, id: Nuid)
    requires id.origin == identity && id in s.store && s.store[id].etype in reg
    ensures DestroyAsWritten(s, identity, id, {}).calls == s.calls
    ensures var t := s.store[id].etype;
      Destroy(reg, s, identity, id, {}).calls
         == s.calls + EntityCalls(Chain(reg[t].ancestors, t), id, OnDestroy, [])
    ensures |Destroy(reg, s, identity, id, {}).calls| > |s.calls|
    ensures DestroyAsWritten(s, identity, id, {}).store == Destroy(reg, s, identity, id, {}).store
  {
  }

  /** Even corrected, the destroy sync never reaches the agent: the entity
      has already left the manager when the gate is checked. */
  lemma DestroyNeverSyncs(reg: Registry, s: NodeState, identity: int, id: Nuid, activeNodes: set<int>)
    ensures Destroy(reg, s, identity, id, activeNodes).sent == s.sent
  {
  }

  /** A created entity exists, has the requested type and is not yet
      activated. */
  lemma CreateThenExists(reg: Registry, s: NodeState, identity: int, id: Nuid, etype: string,
                         args: seq<Value>, remote: Nuid)
    requires WellFormed(reg)
    requires id.origin == identity && Create(reg, s, identity, id, etype, args, remote).1 != EmptyId
    ensures var c := Create(reg, s, identity, id, etype, args, remote).0;
      && Exists(c, identity, id, false).1
      && GetType(c, identity, id, "").1 == etype
      && !c.store[id].activated
  {
  }

  /** Destroying what was just created gives back the entities held before. */
  lemma CreateThenDestroy(reg: Registry, s: NodeState, identity: int, id: Nuid, etype: string,
                          args: seq<Value>, remote: Nuid, activeNodes: set<int>)
    requires id.origin == identity && Create(reg, s, identity, id, etype, args, remote).1 != EmptyId
    ensures Destroy(reg, Create(reg, s, identity, id, etype, args, remote).0, identity, id,
                    activeNodes).store == s.store
  {
    var c := Create(reg, s, identity, id, etype, args, remote).0;
    assert c.store - {id} == s.store;
  }

  /** A second Load of an equal entity value leaves the same entities held,
      and dispatches OnLoad again. (Loading the same C# object twice is not
      this case: Remove clears the object it removes.) */
  lemma LoadIdempotentOnStore(reg: Registry, s: NodeState, e: EntityView)
    ensures Load(reg, Load(reg, s, Some(e)), Some(e)).store == Load(reg, s, Some(e)).store
  {
  }

  /** Entry syncs only a held, activated entity of an activated node, and
      sends nothing otherwise. */
  lemma EntrySyncsIffGate(reg: Registry, s: NodeState, identity: int, id: Nuid, activeNodes: set<int>)
    requires id.origin == identity
    ensures |Entry(reg, s, identity, id, activeNodes).sent| == |s.sent| + (if SyncGate(s, id) then 1 else 0)
  {
  }
}
