/** The node's callback pipeline and its collaborators, on values.

    A node (shard) holds the content of its EntityManager as the map from id to
    entity content that it denotes, plus three traces standing for the
    collaborators it calls: the module dispatcher (NModule), the bound agent
    (Agent.SendMessage) and remote nodes (GrainFactory.GetGrain(origin)). A
    persistence run (SavePersistEntities) is counted. */
module Pipeline {
  import opened Values
  import opened Prefabs
  import opened Entities

  datatype EntityEvent = OnCreate | OnLoad | OnEntry | OnLeave | OnDestroy
  datatype FieldEvent = Change
  datatype TableEvent = AddKey | SetKey | DelKey | SetCol | Clear

  /** One call into the module dispatcher, for one type of the chain. */
  datatype Call =
    | EntityCall(id: Nuid, etype: string, event: EntityEvent, args: seq<Value>)
    | FieldCall(id: Nuid, etype: string, field: string, fevent: FieldEvent, args: seq<Value>)
    | TableCall(id: Nuid, etype: string, table: string, tevent: TableEvent, args: seq<Value>)
    | CommandCall(id: Nuid, command: int, msg: seq<Value>)
    | CustomCall(id: Nuid, custom: int, msg: seq<Value>)

  /** One message to the agent: SYNC_ENTITY, SYNC_FIELD or SYNC_TABLE followed
      by the id, the name, the event and the delta. An entry sync carries the
      entity itself. */
  datatype Msg =
    | EntitySync(id: Nuid, event: EntityEvent, snapshot: Option<EntityView>)
    | FieldSync(id: Nuid, field: string, fevent: FieldEvent, args: seq<Value>)
    | TableSync(id: Nuid, table: string, tevent: TableEvent, args: seq<Value>)

  /** An operation handed to the node that owns the id. */
  datatype Op =
    | ExistsOp(id: Nuid)
    | GetTypeOp(id: Nuid)
    | CreateOp(id: Nuid, etype: string, args: seq<Value>)
    | EntryOp(id: Nuid)
    | LeaveOp(id: Nuid)
    | DestroyOp(id: Nuid)
    | CommandOp(id: Nuid, command: int, msg: seq<Value>)
    | CustomOp(id: Nuid, custom: int, msg: seq<Value>)
    | SetFieldOp(id: Nuid, field: string, value: Value)
    | GetFieldOp(id: Nuid, field: string)
    | SetColOp(id: Nuid, table: string, key: Key, col: int, value: Value)
    | GetColOp(id: Nuid, table: string, key: Key, col: int)
    | AddKeyValueOp(id: Nuid, table: string, key: Key, row: Option<Row>)
    | SetKeyValueOp(id: Nuid, table: string, key: Key, row: Option<Row>)
    | ClearTableOp(id: Nuid, table: string)
    | DelKeyOp(id: Nuid, table: string, key: Key)
    | GetKeyValueOp(id: Nuid, table: string, key: Key)
    | GetKeysOp(id: Nuid, table: string)

  datatype Forward = Forward(node: int, op: Op)

  /** Everything a node operation can observe or change. */
  datatype NodeState = NodeState(
    activated: bool,
    store: map<Nuid, EntityView>,
    calls: seq<Call>,
    sent: seq<Msg>,
    forwarded: seq<Forward>,
    saves: nat)

  /** Every entity is stored under its own id. */
  ghost predicate Coherent(s: NodeState) {
    forall id :: id in s.store ==> s.store[id].id == id
  }

  /** `r` extends `s` by appending to the traces only. */
  ghost predicate Extends(s: NodeState, r: NodeState) {
    && s.calls <= r.calls && s.sent <= r.sent && s.forwarded <= r.forwarded
    && s.saves <= r.saves
  }

  /** The node only hands `op` to node `node`. */
  function ForwardTo(s: NodeState, node: int, op: Op): (r: NodeState)
    ensures r.forwarded == s.forwarded + [Forward(node, op)]
    ensures r.(forwarded := s.forwarded) == s
  {
    s.(forwarded := s.forwarded + [Forward(node, op)])
  }

  /** The types a callback visits: the ancestors from last to first, then
      the type itself, each once. */
  function Chain(ancestors: seq<string>, leaf: string): (r: seq<string>)
    ensures |r| == |ancestors| + 1
    ensures r[|ancestors|] == leaf
    ensures forall i :: 0 <= i < |ancestors| ==> r[i] == ancestors[|ancestors| - 1 - i]
  {
    if ancestors == [] then [leaf]
    else [ancestors[|ancestors| - 1]] + Chain(ancestors[..|ancestors| - 1], leaf)
  }

  /** Walking the ancestors from the last one: one more step extends the
      visited prefix of the chain by the next ancestor. */
  lemma ChainStep(ancestors: seq<string>, leaf: string, i: int)
    requires 0 < i <= |ancestors|
    ensures Chain(ancestors, leaf)[..|ancestors| - i + 1]
         == Chain(ancestors, leaf)[..|ancestors| - i] + [ancestors[i - 1]]
  {
  }

  /** Every type of the chain appears in it exactly as often as in the
      ancestor list, plus the leaf once more. */
  lemma ChainMultiset(ancestors: seq<string>, leaf: string)
    ensures multiset(Chain(ancestors, leaf)) == multiset(ancestors) + multiset{leaf}
  {
    if ancestors != [] {
      var n := |ancestors| - 1;
      ChainMultiset(ancestors[..n], leaf);
      assert ancestors == ancestors[..n] + [ancestors[n]];
    }
  }

  function EntityCalls(types: seq<string>, id: Nuid, event: EntityEvent, args: seq<Value>): (r: seq<Call>)
    ensures |r| == |types|
    ensures forall i :: 0 <= i < |types| ==> r[i] == EntityCall(id, types[i], event, args)
  {
    seq(|types|, i requires 0 <= i < |types| => EntityCall(id, types[i], event, args))
  }

  function FieldCalls(types: seq<string>, id: Nuid, field: string, event: FieldEvent, args: seq<Value>): (r: seq<Call>)
    ensures |r| == |types|
    ensures forall i :: 0 <= i < |types| ==> r[i] == FieldCall(id, types[i], field, event, args)
  {
    seq(|types|, i requires 0 <= i < |types| => FieldCall(id, types[i], field, event, args))
  }

  function TableCalls(types: seq<string>, id: Nuid, table: string, event: TableEvent, args: seq<Value>): (r: seq<Call>)
    ensures |r| == |types|
    ensures forall i :: 0 <= i < |types| ==> r[i] == TableCall(id, types[i], table, event, args)
  {
    seq(|types|, i requires 0 <= i < |types| => TableCall(id, types[i], table, event, args))
  }

  /** The three conditions under which a sync message reaches the agent. */
  predicate SyncGate(s: NodeState, id: Nuid) {
    s.activated && id in s.store && s.store[id].activated
  }

  /** SyncEntity / SyncField / SyncTable: one message when the gate is open,
      nothing otherwise. */
  function Sync(s: NodeState, id: Nuid, msg: Msg): (r: NodeState)
    ensures r.(sent := s.sent) == s
    ensures r.sent == if SyncGate(s, id) then s.sent + [msg] else s.sent
  {
    if !s.activated || id !in s.store || !s.store[id].activated then s
    else s.(sent := s.sent + [msg])
  }

  /** CallbackEntity, with the entity's type already resolved: nothing for an
      unregistered type, otherwise one dispatch per type of the chain. */
  function CallbackEntity(reg: Registry, s: NodeState, id: Nuid, etype: string,
                          event: EntityEvent, args: seq<Value>): (r: NodeState)
    ensures r.(calls := s.calls) == s
    ensures etype !in reg ==> r == s
    ensures etype in reg ==>
      r.calls == s.calls + EntityCalls(Chain(reg[etype].ancestors, etype), id, event, args)
  {
    if etype !in reg then s
    else s.(calls := s.calls + EntityCalls(Chain(reg[etype].ancestors, etype), id, event, args))
  }

  /** Whether a field's changes are synchronised: declared and flagged. */
  predicate FieldSynced(reg: Registry, etype: string, field: string) {
    etype in reg && field in reg[etype].fields && reg[etype].fields[field].sync
  }

  predicate TableSynced(reg: Registry, etype: string, table: string) {
    etype in reg && table in reg[etype].tables && reg[etype].tables[table].sync
  }

  /** CallbackField: the chain of dispatches, then a field sync when the
      prefab flags the field. */
  function CallbackField(reg: Registry, s: NodeState, id: Nuid, etype: string,
                         field: string, event: FieldEvent, args: seq<Value>): (r: NodeState)
    ensures r.(calls := s.calls, sent := s.sent) == s
    ensures etype !in reg ==> r == s
    ensures etype in reg ==>
      r.calls == s.calls + FieldCalls(Chain(reg[etype].ancestors, etype), id, field, event, args)
    ensures r.sent == if FieldSynced(reg, etype, field) && SyncGate(s, id)
                      then s.sent + [FieldSync(id, field, event, args)] else s.sent
  {
    if etype !in reg then s
    else
      var called := s.(calls := s.calls + FieldCalls(Chain(reg[etype].ancestors, etype), id, field, event, args));
      if field in reg[etype].fields && reg[etype].fields[field].sync
      then Sync(called, id, FieldSync(id, field, event, args))
      else called
  }

  function CallbackTable(reg: Registry, s: NodeState, id: Nuid, etype: string,
                         table: string, event: TableEvent, args: seq<Value>): (r: NodeState)
    ensures r.(calls := s.calls, sent := s.sent) == s
    ensures etype !in reg ==> r == s
    ensures etype in reg ==>
      r.calls == s.calls + TableCalls(Chain(reg[etype].ancestors, etype), id, table, event, args)
    ensures r.sent == if TableSynced(reg, etype, table) && SyncGate(s, id)
                      then s.sent + [TableSync(id, table, event, args)] else s.sent
  {
    if etype !in reg then s
    else
      var called := s.(calls := s.calls + TableCalls(Chain(reg[etype].ancestors, etype), id, table, event, args));
      if table in reg[etype].tables && reg[etype].tables[table].sync
      then Sync(called, id, TableSync(id, table, event, args))
      else called
  }

  /** Command: dispatched here when the entity is here or the id is this
      node's own; otherwise handed, unconditionally, to the owning node. */
  function Command(s: NodeState, identity: int, id: Nuid, command: int, msg: seq<Value>): (r: NodeState)
    ensures r.store == s.store && r.sent == s.sent && r.activated == s.activated && r.saves == s.saves
    ensures id in s.store || id.origin == identity ==>
      r == s.(calls := s.calls + [CommandCall(id, command, msg)])
    ensures id !in s.store && id.origin != identity ==>
      r == s.(forwarded := s.forwarded + [Forward(id.origin, CommandOp(id, command, msg))])
  {
    if id in s.store then s.(calls := s.calls + [CommandCall(id, command, msg)])
    else if id.origin == identity then s.(calls := s.calls + [CommandCall(id, command, msg)])
    else ForwardTo(s, id.origin, CommandOp(id, command, msg))
  }

  /** Custom: dispatched here when the entity is here; dropped for an absent
      own id; otherwise handed on only when the owning node reports active. */
  function Custom(s: NodeState, identity: int, id: Nuid, custom: int, msg: seq<Value>,
                  activeNodes: set<int>): (r: NodeState)
    ensures r.store == s.store && r.sent == s.sent && r.activated == s.activated && r.saves == s.saves
    ensures r.calls == if id in s.store then s.calls + [CustomCall(id, custom, msg)] else s.calls
    ensures r.forwarded ==
      if id !in s.store && id.origin != identity && id.origin in activeNodes
      then s.forwarded + [Forward(id.origin, CustomOp(id, custom, msg))]
      else s.forwarded
  {
    if id in s.store then s.(calls := s.calls + [CustomCall(id, custom, msg)])
    else if id.origin == identity then s
    else if id.origin in activeNodes then ForwardTo(s, id.origin, CustomOp(id, custom, msg))
    else s
  }

  /** Every dispatch of a callback names the entity and carries the same
      arguments, and the leaf type is visited last. */
  lemma CallbackEntityShape(reg: Registry, s: NodeState, id: Nuid, etype: string,
                            event: EntityEvent, args: seq<Value>)
    requires etype in reg
    ensures var added := CallbackEntity(reg, s, id, etype, event, args).calls[|s.calls|..];
      && |added| == |reg[etype].ancestors| + 1
      && added[|added| - 1] == EntityCall(id, etype, event, args)
      && (forall c :: c in added ==> c.EntityCall? && c.id == id && c.event == event && c.args == args)
  {
    var added := CallbackEntity(reg, s, id, etype, event, args).calls[|s.calls|..];
    assert added == EntityCalls(Chain(reg[etype].ancestors, etype), id, event, args);
  }
}
