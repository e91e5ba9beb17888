/** The node (shard) on the hot (Grain) path. It keeps the entities its
    EntityManager holds as values, and appends to the traces of its
    collaborators; every operation is proved to perform exactly the
    transition its specification function describes. */
module Shard {
  import opened Values
  import opened Prefabs
  import opened Tables
  import opened Entities
  import opened Ordering
  import opened Pipeline
  import EntityOps
  import FieldOps
  import TableOps
  import Lifecycle

  /** The priority of a held entity's prefab, the key GetEntities sorts by. */
  function Priority(reg: Registry, store: map<Nuid, EntityView>, id: Nuid): int {
    if id in store && store[id].etype in reg then reg[store[id].etype].priority else 0
  }

  function ViewPriority(reg: Registry, e: EntityView): int {
    if e.etype in reg then reg[e.etype].priority else 0
  }

  class Node {
    const identity: int
    const registry: Registry
    var activated: bool
    var store: map<Nuid, EntityView>
    var calls: seq<Call>
    var sent: seq<Msg>
    var forwarded: seq<Forward>
    var saves: nat

    function State(): NodeState
      reads this
    {
      NodeState(activated, store, calls, sent, forwarded, saves)
    }

    ghost predicate Valid()
      reads this
    {
      WellFormed(registry) && Coherent(State())
    }

    constructor (identity: int, registry: Registry)
      requires WellFormed(registry)
      ensures Valid() && this.identity == identity && this.registry == registry
      ensures State() == NodeState(false, map[], [], [], [], 0)
    {
      this.identity := identity;
      this.registry := registry;
      activated := false;
      store := map[];
      calls := [];
      sent := [];
      forwarded := [];
      saves := 0;
    }

    method ForwardTo(node: int, op: Op)
      modifies this`forwarded
      ensures State() == Pipeline.ForwardTo(old(State()), node, op)
    {
      forwarded := forwarded + [Forward(node, op)];
    }

    // ---- Node.cs: flags, sync gate, callbacks, routing ----

    method IsActive() returns (a: bool)
      ensures a == activated
    {
      a := activated;
    }

    /** SyncEntity / SyncField / SyncTable. */
    method Sync(id: Nuid, msg: Msg)
      modifies this`sent
      ensures State() == Pipeline.Sync(old(State()), id, msg)
    {
      if !activated {
        return;
      }
      if id !in store {
        return;
      }
      if !store[id].activated {
        return;
      }
      sent := sent + [msg];
    }

    /** The dispatches of one callback: the ancestors from last to first,
        then the type itself. */
    method CallbackEntity(id: Nuid, etype: string, event: EntityEvent, args: seq<Value>)
      modifies this`calls
      ensures State() == Pipeline.CallbackEntity(registry, old(State()), id, etype, event, args)
    {
      if etype !in registry {
        return;
      }
      var ancestors := registry[etype].ancestors;
      ghost var chain := Chain(ancestors, etype);
      var i := |ancestors|;
      while i > 0
        invariant 0 <= i <= |ancestors|
        invariant calls == old(calls) + EntityCalls(chain[..|ancestors| - i], id, event, args)
      {
        ChainStep(ancestors, etype, i);
        i := i - 1;
        calls := calls + [EntityCall(id, ancestors[i], event, args)];
      }
      calls := calls + [EntityCall(id, etype, event, args)];
      assert chain == chain[..|ancestors|] + [etype];
    }

    /** The dispatcher calls of CallbackField for a registered type. */
    method DispatchField(id: Nuid, etype: string, field: string, event: FieldEvent, args: seq<Value>)
      requires etype in registry
      modifies this`calls
      ensures calls == old(calls) + FieldCalls(Chain(registry[etype].ancestors, etype), id, field, event, args)
    {
      var ancestors := registry[etype].ancestors;
      ghost var chain := Chain(ancestors, etype);
      var i := |ancestors|;
      while i > 0
        invariant 0 <= i <= |ancestors|
        invariant calls == old(calls) + FieldCalls(chain[..|ancestors| - i], id, field, event, args)
      {
        ChainStep(ancestors, etype, i);
        i := i - 1;
        calls := calls + [FieldCall(id, ancestors[i], field, event, args)];
      }
      calls := calls + [FieldCall(id, etype, field, event, args)];
      assert chain == chain[..|ancestors|] + [etype];
    }

    method CallbackField(id: Nuid, etype: string, field: string, event: FieldEvent, args: seq<Value>)
      modifies this`calls, this`sent
      ensures State() == Pipeline.CallbackField(registry, old(State()), id, etype, field, event, args)
    {
      if etype !in registry {
        return;
      }
      DispatchField(id, etype, field, event, args);
      var prefab := registry[etype];
      if field in prefab.fields && prefab.fields[field].sync {
        Sync(id, FieldSync(id, field, event, args));
      }
    }

    /** The dispatcher calls of CallbackTable for a registered type. */
    method DispatchTable(id: Nuid, etype: string, table: string, event: TableEvent, args: seq<Value>)
      requires etype in registry
      modifies this`calls
      ensures calls == old(calls) + TableCalls(Chain(registry[etype].ancestors, etype), id, table, event, args)
    {
      var ancestors := registry[etype].ancestors;
      ghost var chain := Chain(ancestors, etype);
      var i := |ancestors|;
      while i > 0
        invariant 0 <= i <= |ancestors|
        invariant calls == old(calls) + TableCalls(chain[..|ancestors| - i], id, table, event, args)
      {
        ChainStep(ancestors, etype, i);
        i := i - 1;
        calls := calls + [TableCall(id, ancestors[i], table, event, args)];
      }
      calls := calls + [TableCall(id, etype, table, event, args)];
      assert chain == chain[..|ancestors|] + [etype];
    }

    method CallbackTable(id: Nuid, etype: string, table: string, event: TableEvent, args: seq<Value>)
      modifies this`calls, this`sent
      ensures State() == Pipeline.CallbackTable(registry, old(State()), id, etype, table, event, args)
    {
      if etype !in registry {
        return;
      }
      DispatchTable(id, etype, table, event, args);
      var prefab := registry[etype];
      if table in prefab.tables && prefab.tables[table].sync {
        Sync(id, TableSync(id, table, event, args));
      }
    }

    method Command(id: Nuid, command: int, msg: seq<Value>)
      modifies this`calls, this`forwarded
      ensures State() == Pipeline.Command(old(State()), identity, id, command, msg)
    {
      if id in store {
        calls := calls + [CommandCall(id, command, msg)];
      } else if id.origin == identity {
        calls := calls + [CommandCall(id, command, msg)];
      } else {
        ForwardTo(id.origin, CommandOp(id, command, msg));
      }
    }

    method Custom(id: Nuid, custom: int, msg: seq<Value>, activeNodes: set<int>)
      modifies this`calls, this`forwarded
      ensures State() == Pipeline.Custom(old(State()), identity, id, custom, msg, activeNodes)
    {
      if id in store {
        calls := calls + [CustomCall(id, custom, msg)];
      } else {
        if id.origin == identity {
          return;
        }
        if id.origin in activeNodes {
          ForwardTo(id.origin, CustomOp(id, custom, msg));
        }
      }
    }

    /** Deactive: the flag drops, then the entities are saved. */
    method Deactive()
      modifies this
      ensures State() == Lifecycle.Deactive(old(State()))
    {
      activated := false;
      saves := saves + 1;
    }

    method ScheduledSave()
      modifies this
      ensures State() == Lifecycle.ScheduledSave(old(State()))
    {
      if !activated {
        return;
      }
      saves := saves + 1;
    }

    /** Active: the held entities in priority order (the order GetEntities
        lists them in), each activated, then Entry replayed for each, then
        the node's flag. */
    method Active(activeNodes: set<int>) returns (order: seq<Nuid>)
      requires Valid()
      modifies this
      ensures Valid()
      ensures forall id :: id in order <==> id in old(store)
      ensures Distinct(order)
      ensures forall i, j :: 0 <= i < j < |order| ==>
        Priority(registry, old(store), order[i]) >= Priority(registry, old(store), order[j])
      ensures State() == Lifecycle.Active(registry, old(State()), identity, order, activeNodes)
    {
      var ids := Enumerate(store.Keys);
      var held := store;
      var reg := registry;
      order := SortByPriority(ids, id => Priority(reg, held, id));
      ActivateEntities(order);
      ghost var start := State();
      ReplayEntries(order, activeNodes);
      Lifecycle.ActiveReplayKeepsStore(registry, start, identity, order, activeNodes);
      activated := true;
    }

    /** The first loop of Active: every entity of `order` (all held ones)
        gets its activation flag. */
    method ActivateEntities(order: seq<Nuid>)
      requires forall id :: id in order <==> id in store
      modifies this`store
      ensures store == Lifecycle.ActivateAll(old(store))
    {
      var i := 0;
      while i < |order|
        invariant 0 <= i <= |order|
        invariant store.Keys == old(store).Keys
        invariant forall id :: id in store ==>
          store[id] == if id in order[..i] then old(store)[id].(activated := true) else old(store)[id]
      {
        var id := order[i];
        store := store[id := store[id].(activated := true)];
        assert order[..i + 1] == order[..i] + [id];
        i := i + 1;
      }
      assert order[..i] == order;
    }

    /** The second loop of Active: Entry replayed for each id in turn. */
    method ReplayEntries(order: seq<Nuid>, activeNodes: set<int>)
      modifies this`calls, this`sent, this`forwarded
      ensures State() == Lifecycle.EntryAll(registry, old(State()), identity, order, activeNodes)
    {
      var i := 0;
      while i < |order|
        invariant 0 <= i <= |order|
        invariant State() == Lifecycle.EntryAll(registry, old(State()), identity, order[..i], activeNodes)
      {
        Entry(order[i], activeNodes);
        assert order[..i + 1][..i] == order[..i];
        i := i + 1;
      }
      assert order[..i] == order;
    }

    // ---- Node.Entity.cs ----

    method Exists(id: Nuid, remote: bool) returns (found: bool)
      modifies this`forwarded
      ensures (State(), found) == EntityOps.Exists(old(State()), identity, id, remote)
    {
      if id.origin != identity {
        ForwardTo(id.origin, ExistsOp(id));
        return remote;
      }
      found := id in store;
    }

    method GetType(id: Nuid, remote: string) returns (etype: string)
      modifies this`forwarded
      ensures (State(), etype) == EntityOps.GetType(old(State()), identity, id, remote)
    {
      if id.origin != identity {
        ForwardTo(id.origin, GetTypeOp(id));
        return remote;
      }
      if id !in store {
        return "";
      }
      etype := store[id].etype;
    }

    method Create(id: Nuid, etype: string, args: seq<Value>, remote: Nuid) returns (created: Nuid)
      requires Valid()
      modifies this
      ensures Valid()
      ensures (State(), created) == EntityOps.Create(registry, old(State()), identity, id, etype, args, remote)
    {
      if id.origin != identity {
        ForwardTo(id.origin, CreateOp(id, etype, args));
        return remote;
      }
      if id == EmptyId || id in store || etype !in registry {
        return EmptyId;
      }
      store := store[id := GenView(registry[etype]).(id := id)];
      CallbackEntity(id, etype, OnCreate, args);
      created := id;
    }

    /** Create(type, origin, args), with `unique` the fresh value
        IdGenerator.NewIdentity supplies. */
    method CreateIn(etype: string, origin: Nuid, args: seq<Value>, unique: int, remote: Nuid) returns (created: Nuid)
      requires Valid()
      modifies this
      ensures Valid()
      ensures (State(), created) == EntityOps.CreateIn(registry, old(State()), identity, etype, origin, args, unique, remote)
    {
      created := Create(Nuid(unique, origin.origin), etype, args, remote);
    }

    method Entry(id: Nuid, activeNodes: set<int>)
      modifies this`calls, this`sent, this`forwarded
      ensures State() == EntityOps.Entry(registry, old(State()), identity, id, activeNodes)
    {
      if id.origin != identity && id.origin in activeNodes {
        ForwardTo(id.origin, EntryOp(id));
        return;
      }
      if id !in store {
        return;
      }
      CallbackEntity(id, store[id].etype, OnEntry, []);
      Sync(id, EntitySync(id, OnEntry, Some(store[id])));
    }

    method Load(entity: Option<EntityView>)
      requires Valid()
      modifies this
      ensures Valid()
      ensures State() == EntityOps.Load(registry, old(State()), entity)
    {
      if entity.None? {
        return;
      }
      var e := entity.value;
      if e.id in store {
        store := store - {e.id};
      }
      store := store[e.id := e];
      CallbackEntity(e.id, e.etype, OnLoad, []);
    }

    method Leave(id: Nuid, activeNodes: set<int>)
      modifies this`calls, this`sent, this`forwarded
      ensures State() == EntityOps.Leave(registry, old(State()), identity, id, activeNodes)
    {
      if id in store {
        CallbackEntity(id, store[id].etype, OnLeave, []);
        Sync(id, EntitySync(id, OnLeave, None));
      } else {
        if id.origin == identity {
          return;
        }
        if id.origin in activeNodes {
          ForwardTo(id.origin, LeaveOp(id));
        }
      }
    }

    /** Destroy, with EntityManager.Remove's result read the intended way
        and the entity's type taken before it is removed. */
    method Destroy(id: Nuid, activeNodes: set<int>)
      requires Valid()
      modifies this
      ensures Valid()
      ensures State() == EntityOps.Destroy(registry, old(State()), identity, id, activeNodes)
    {
      if id.origin != identity && id.origin in activeNodes {
        ForwardTo(id.origin, DestroyOp(id));
        return;
      }
      if id !in store {
        return;
      }
      var etype := store[id].etype;
      store := store - {id};
      CallbackEntity(id, etype, OnDestroy, []);
      Sync(id, EntitySync(id, OnDestroy, None));
    }

    /** GetEntities: every held entity once, highest prefab priority first. */
    method GetEntities() returns (list: seq<EntityView>)
      ensures forall e :: e in list <==> e in store.Values
      ensures Distinct(list)
      ensures forall i, j :: 0 <= i < j < |list| ==>
        ViewPriority(registry, list[i]) >= ViewPriority(registry, list[j])
    {
      var all := Enumerate(store.Values);
      var reg := registry;
      list := SortByPriority(all, e => ViewPriority(reg, e));
    }

    // ---- Node.Field.cs ----

    method SetFieldLocal(id: Nuid, field: string, v: Value)
      requires Valid()
      modifies this
      ensures Valid()
      ensures State() == FieldOps.SetFieldLocal(registry, old(State()), id, field, v)
    {
      if v == Null {
        return;
      }
      if id !in store {
        return;
      }
      var e := store[id];
      if field !in e.fields {
        return;
      }
      var previous := e.fields[field];
      if previous == v {
        return;
      }
      store := store[id := e.(fields := e.fields[field := v])];
      CallbackField(id, e.etype, field, Change, [previous, v]);
    }

    /** SetFieldBool … SetFieldList. */
    method SetField(id: Nuid, field: string, v: Value)
      requires Valid()
      modifies this
      ensures Valid()
      ensures State() == FieldOps.SetField(registry, old(State()), identity, id, field, v)
    {
      if id.origin != identity {
        ForwardTo(id.origin, SetFieldOp(id, field, v));
        return;
      }
      SetFieldLocal(id, field, v);
    }

    /** GetFieldBool … GetFieldList. */
    method GetField(id: Nuid, field: string, remote: Option<Value>) returns (value: Option<Value>)
      modifies this`forwarded
      ensures (State(), value) == FieldOps.GetField(old(State()), identity, id, field, remote)
    {
      if id.origin != identity {
        ForwardTo(id.origin, GetFieldOp(id, field));
        return remote;
      }
      if id !in store || field !in store[id].fields {
        return None;
      }
      value := Some(store[id].fields[field]);
    }

    // ---- Node.Table.cs ----

    /** Stores a mutation's rows and fires its callback; nothing on
        Unchanged. */
    method Apply(id: Nuid, table: string, m: Mutation, event: TableEvent)
      requires Valid() && TableOps.HasTable(State(), id, table)
      modifies this
      ensures Valid()
      ensures State() == TableOps.Apply(registry, old(State()), id, table, m, event)
    {
      if m.Unchanged? {
        return;
      }
      var e := store[id];
      store := store[id := e.(tables := e.tables[table := e.tables[table].(rows := m.rows)])];
      CallbackTable(id, e.etype, table, event, m.delta);
    }

    method SetKeyColLocal(id: Nuid, table: string, k: Key, col: int, v: Value)
      requires Valid()
      modifies this
      ensures Valid()
      ensures State() == TableOps.SetKeyColLocal(registry, old(State()), id, table, k, col, v)
    {
      if v == Null {
        return;
      }
      if !TableOps.HasTypedTable(State(), id, table, k) {
        return;
      }
      Apply(id, table, SetColumn(store[id].tables[table].rows, k, col, v), TableEvent.SetCol);
    }

    /** SetColBool … SetColList. */
    method SetCol(id: Nuid, table: string, k: Key, col: int, v: Value)
      requires Valid()
      modifies this
      ensures Valid()
      ensures State() == TableOps.SetCol(registry, old(State()), identity, id, table, k, col, v)
    {
      if id.origin != identity {
        ForwardTo(id.origin, SetColOp(id, table, k, col, v));
        return;
      }
      SetKeyColLocal(id, table, k, col, v);
    }

    method AddKeyValue(id: Nuid, table: string, k: Key, row: Option<Row>)
      requires Valid()
      modifies this
      ensures Valid()
      ensures State() == TableOps.AddKeyValue(registry, old(State()), identity, id, table, k, row)
    {
      if id.origin != identity {
        ForwardTo(id.origin, AddKeyValueOp(id, table, k, row));
        return;
      }
      if !TableOps.HasTypedTable(State(), id, table, k) {
        return;
      }
      Apply(id, table, PutRow(store[id].tables[table].rows, k, row), AddKey);
    }

    method SetKeyValue(id: Nuid, table: string, k: Key, row: Option<Row>)
      requires Valid()
      modifies this
      ensures Valid()
      ensures State() == TableOps.SetKeyValue(registry, old(State()), identity, id, table, k, row)
    {
      if id.origin != identity {
        ForwardTo(id.origin, SetKeyValueOp(id, table, k, row));
        return;
      }
      if !TableOps.HasTypedTable(State(), id, table, k) {
        return;
      }
      Apply(id, table, PutRow(store[id].tables[table].rows, k, row), SetKey);
    }

    method ClearTable(id: Nuid, table: string)
      requires Valid()
      modifies this
      ensures Valid()
      ensures State() == TableOps.ClearTable(registry, old(State()), identity, id, table)
    {
      if id.origin != identity {
        ForwardTo(id.origin, ClearTableOp(id, table));
        return;
      }
      if !TableOps.HasTable(State(), id, table) {
        return;
      }
      var e := store[id];
      store := store[id := e.(tables := e.tables[table := e.tables[table].(rows := map[])])];
      CallbackTable(id, e.etype, table, TableEvent.Clear, []);
    }

    method DelKey(id: Nuid, table: string, k: Key)
      requires Valid()
      modifies this
      ensures Valid()
      ensures State() == TableOps.DelKeyOf(registry, old(State()), identity, id, table, k)
    {
      if id.origin != identity {
        ForwardTo(id.origin, DelKeyOp(id, table, k));
        return;
      }
      if !TableOps.HasTypedTable(State(), id, table, k) {
        return;
      }
      Apply(id, table, DeleteRow(store[id].tables[table].rows, k), TableEvent.DelKey);
    }

    /** GetColBool … GetColList. */
    method GetCol(id: Nuid, table: string, k: Key, col: int, remote: Option<Value>) returns (value: Option<Value>)
      modifies this`forwarded
      ensures (State(), value) == TableOps.GetCol(old(State()), identity, id, table, k, col, remote)
    {
      if id.origin != identity {
        ForwardTo(id.origin, GetColOp(id, table, k, col));
        return remote;
      }
      if !TableOps.HasTypedTable(State(), id, table, k) {
        return None;
      }
      var rows := store[id].tables[table].rows;
      if k !in rows {
        return None;
      }
      value := ColAt(rows[k], col);
    }

    method GetKeyValue(id: Nuid, table: string, k: Key, remote: Option<Row>) returns (row: Option<Row>)
      modifies this`forwarded
      ensures (State(), row) == TableOps.GetKeyValue(old(State()), identity, id, table, k, remote)
    {
      if id.origin != identity {
        ForwardTo(id.origin, GetKeyValueOp(id, table, k));
        return remote;
      }
      if !TableOps.HasTypedTable(State(), id, table, k) {
        return Some([]);
      }
      var rows := store[id].tables[table].rows;
      if k !in rows {
        return None;
      }
      row := Some(rows[k]);
    }

    /** GetKeys: for an own id, every key of the table once, as values; the
        owning node's reply otherwise. */
    method GetKeys(id: Nuid, table: string, remote: seq<Value>) returns (list: seq<Value>)
      modifies this`forwarded
      ensures id.origin != identity ==>
        State() == Pipeline.ForwardTo(old(State()), id.origin, GetKeysOp(id, table)) && list == remote
      ensures id.origin == identity ==> State() == old(State())
      ensures id.origin == identity ==>
        && |list| == |TableOps.KeysOf(State(), id, table)|
        && (forall k :: k in TableOps.KeysOf(State(), id, table) <==> KeyValue(k) in list)
        && Distinct(list)
    {
      if id.origin != identity {
        ForwardTo(id.origin, GetKeysOp(id, table));
        return remote;
      }
      if !TableOps.HasTable(State(), id, table) {
        return [];
      }
      var keys := Enumerate(store[id].tables[table].rows.Keys);
      list := [];
      var i := 0;
      while i < |keys|
        invariant 0 <= i <= |keys|
        invariant |list| == i
        invariant forall j :: 0 <= j < i ==> list[j] == KeyValue(keys[j])
      {
        list := list + [KeyValue(keys[i])];
        i := i + 1;
      }
      forall k | KeyValue(k) in list
        ensures k in keys
      {
        var j :| 0 <= j < |list| && list[j] == KeyValue(k);
        KeyValueInjective(k, keys[j]);
      }
      forall i, j | 0 <= i < j < |list|
        ensures list[i] != list[j]
      {
        if list[i] == list[j] {
          KeyValueInjective(keys[i], keys[j]);
        }
      }
    }
  }
}
