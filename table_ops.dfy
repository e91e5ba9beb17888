/** Table writes and reads of a node on the hot (Grain) path. A typed
    operation finds a table only when it was made for the key's type (the
    `as Table<TPrimaryKey>` cast); ClearTable and GetKeys take any table. The
    typed wrappers (SetColBool … SetColList, GetColBool … GetColList) differ
    only in the static type of the value, so one tagged value stands for all
    of them. */
module TableOps {
  import opened Values
  import opened Prefabs
  import opened Tables
  import opened Entities
  import opened Pipeline

  /** The entity is here and has a table of that name. */
  predicate HasTable(s: NodeState, id: Nuid, table: string) {
    id in s.store && table in s.store[id].tables
  }

  /** ... and the table's key type is the key's. */
  predicate HasTypedTable(s: NodeState, id: Nuid, table: string, k: Key) {
    HasTable(s, id, table) && s.store[id].tables[table].keyType == KeyType(k)
  }

  function RowsOf(s: NodeState, id: Nuid, table: string): map<Key, Row>
    requires HasTable(s, id, table)
  {
    s.store[id].tables[table].rows
  }

  /** `b` holds the same entities as `a` except, at most, for the rows of
      one table of one entity. */
  ghost predicate SameButRows(a: map<Nuid, EntityView>, b: map<Nuid, EntityView>, id: Nuid, table: string) {
    && a.Keys == b.Keys && id in a && table in a[id].tables && table in b[id].tables
    && (forall i :: i in a && i != id ==> b[i] == a[i])
    && b[id].(tables := a[id].tables) == a[id]
    && b[id].tables.Keys == a[id].tables.Keys
    && (forall n :: n in a[id].tables && n != table ==> b[id].tables[n] == a[id].tables[n])
    && b[id].tables[table].(rows := a[id].tables[table].rows) == a[id].tables[table]
  }

  /** Changing only one table's rows, and back to what they were, changes
      nothing. */
  lemma SameRowsSameStore(a: map<Nuid, EntityView>, b: map<Nuid, EntityView>, id: Nuid, table: string)
    requires SameButRows(a, b, id, table)
    requires b[id].tables[table].rows == a[id].tables[table].rows
    ensures a == b
  {
    assert b[id].tables[table] == a[id].tables[table];
    assert b[id].tables == a[id].tables;
    assert b[id] == a[id];
  }

  lemma SameButRowsTrans(a: map<Nuid, EntityView>, b: map<Nuid, EntityView>, c: map<Nuid, EntityView>, id: Nuid, table: string)
    requires SameButRows(a, b, id, table) && SameButRows(b, c, id, table)
    ensures SameButRows(a, c, id, table)
  {
  }

  /** The node with one table's rows replaced and everything else as it was. */
  function WithRows(s: NodeState, id: Nuid, table: string, rows: map<Key, Row>): (r: NodeState)
    requires HasTable(s, id, table)
    ensures Coherent(s) ==> Coherent(r)
    ensures HasTable(r, id, table) && RowsOf(r, id, table) == rows
    ensures r.store.Keys == s.store.Keys
    ensures r.store[id].etype == s.store[id].etype && r.store[id].activated == s.store[id].activated
    ensures r.store[id].tables[table].keyType == s.store[id].tables[table].keyType
    ensures SameButRows(s.store, r.store, id, table)
    ensures r.(store := s.store) == s
  {
    var e := s.store[id];
    var t := e.tables[table];
    s.(store := s.store[id := e.(tables := e.tables[table := t.(rows := rows)])])
  }

  /** The dispatches a table event makes for an entity of type `t`: one per
      type of its chain, none for an unregistered type. */
  function TableDispatch(reg: Registry, t: string, id: Nuid, table: string, event: TableEvent,
                         args: seq<Value>): seq<Call>
  {
    if t in reg then TableCalls(Chain(reg[t].ancestors, t), id, table, event, args) else []
  }

  /** `r` is `s` after a table event of entity `id`: its chain's callbacks
      carrying `args`, then a table sync when the prefab flags the table and
      the gate of `s` is open. */
  ghost predicate TableNotified(reg: Registry, s: NodeState, r: NodeState, id: Nuid, table: string,
                                event: TableEvent, args: seq<Value>)
    requires id in s.store
  {
    var t := s.store[id].etype;
    && r.calls == s.calls + TableDispatch(reg, t, id, table, event, args)
    && r.sent == if TableSynced(reg, t, table) && SyncGate(s, id)
                 then s.sent + [TableSync(id, table, event, args)] else s.sent
  }

  /** A table mutation as the node applies it: nothing on Unchanged,
      otherwise the new rows, the chain's callbacks carrying the delta and
      the gated table sync. */
  function Apply(reg: Registry, s: NodeState, id: Nuid, table: string, m: Mutation, event: TableEvent): (r: NodeState)
    requires HasTable(s, id, table)
    ensures Coherent(s) ==> Coherent(r)
    ensures Extends(s, r) && r.activated == s.activated && r.forwarded == s.forwarded && r.saves == s.saves
    ensures r.store.Keys == s.store.Keys
    ensures m.Unchanged? ==> r == s
    ensures m.Changed? ==> HasTable(r, id, table) && RowsOf(r, id, table) == m.rows
    ensures SameButRows(s.store, r.store, id, table)
    ensures m.Changed? ==> TableNotified(reg, s, r, id, table, event, m.delta)
  {
    match m
    case Unchanged => s
    case Changed(rows, delta) =>
      CallbackTable(reg, WithRows(s, id, table, rows), id, s.store[id].etype, table, event, delta)
  }

  /** SetKeyCol: nothing for a null value or a missing entity or table;
      otherwise TrySetKeyCol decides, and a change fires SetCol with
      [key, col, old, new]. */
  function SetKeyColLocal(reg: Registry, s: NodeState, id: Nuid, table: string, k: Key, col: int, v: Value): (r: NodeState)
    ensures Coherent(s) ==> Coherent(r)
    ensures Extends(s, r) && r.store.Keys == s.store.Keys && r.forwarded == s.forwarded
    ensures HasTable(s, id, table) ==> SameButRows(s.store, r.store, id, table)
    ensures v == Null || !HasTypedTable(s, id, table, k) ==> r == s
    ensures v != Null && HasTypedTable(s, id, table, k) ==>
      r == Apply(reg, s, id, table, SetColumn(RowsOf(s, id, table), k, col, v), TableEvent.SetCol)
  {
    if v == Null then s
    else if !HasTypedTable(s, id, table, k) then s
    else Apply(reg, s, id, table, SetColumn(RowsOf(s, id, table), k, col, v), TableEvent.SetCol)
  }

  /** SetColBool … SetColList. */
  function SetCol(reg: Registry, s: NodeState, identity: int, id: Nuid, table: string, k: Key, col: int, v: Value): (r: NodeState)
    ensures id.origin != identity ==> r == ForwardTo(s, id.origin, SetColOp(id, table, k, col, v))
    ensures id.origin == identity ==> r == SetKeyColLocal(reg, s, id, table, k, col, v)
  {
    if id.origin != identity then ForwardTo(s, id.origin, SetColOp(id, table, k, col, v))
    else SetKeyColLocal(reg, s, id, table, k, col, v)
  }

  /** The Grain branch shared by AddKeyValue and SetKeyValue: the row is
      inserted or replaced by TrySetKeyValue, a null row changes nothing. */
  function PutKeyValueLocal(reg: Registry, s: NodeState, id: Nuid, table: string, k: Key, row: Option<Row>,
                            event: TableEvent): (r: NodeState)
    ensures Coherent(s) ==> Coherent(r)
    ensures Extends(s, r) && r.store.Keys == s.store.Keys && r.forwarded == s.forwarded
    ensures HasTable(s, id, table) ==> SameButRows(s.store, r.store, id, table)
    ensures row.None? || !HasTypedTable(s, id, table, k) ==> r == s
    ensures row.Some? && HasTypedTable(s, id, table, k) ==>
      && HasTable(r, id, table) && RowsOf(r, id, table) == RowsOf(s, id, table)[k := row.value]
      && TableNotified(reg, s, r, id, table, event, [KeyValue(k), List(row.value)])
  {
    if !HasTypedTable(s, id, table, k) then s
    else Apply(reg, s, id, table, PutRow(RowsOf(s, id, table), k, row), event)
  }

  /** AddKeyValue: fires AddKey. An existing key is overwritten, exactly as
      by SetKeyValue. */
  function AddKeyValue(reg: Registry, s: NodeState, identity: int, id: Nuid, table: string, k: Key, row: Option<Row>): (r: NodeState)
    ensures id.origin != identity ==> r == ForwardTo(s, id.origin, AddKeyValueOp(id, table, k, row))
    ensures id.origin == identity ==> r == PutKeyValueLocal(reg, s, id, table, k, row, AddKey)
  {
    if id.origin != identity then ForwardTo(s, id.origin, AddKeyValueOp(id, table, k, row))
    else PutKeyValueLocal(reg, s, id, table, k, row, AddKey)
  }

  /** SetKeyValue: fires SetKey. An absent key is inserted, exactly as by
      AddKeyValue. */
  function SetKeyValue(reg: Registry, s: NodeState, identity: int, id: Nuid, table: string, k: Key, row: Option<Row>): (r: NodeState)
    ensures id.origin != identity ==> r == ForwardTo(s, id.origin, SetKeyValueOp(id, table, k, row))
    ensures id.origin == identity ==> r == PutKeyValueLocal(reg, s, id, table, k, row, SetKey)
  {
    if id.origin != identity then ForwardTo(s, id.origin, SetKeyValueOp(id, table, k, row))
    else PutKeyValueLocal(reg, s, id, table, k, row, SetKey)
  }

  /** DelKey: an absent key changes nothing; a present one is removed and
      DelKey fires with [key, old row]. */
  function DelKeyLocal(reg: Registry, s: NodeState, id: Nuid, table: string, k: Key): (r: NodeState)
    ensures Coherent(s) ==> Coherent(r)
    ensures Extends(s, r) && r.store.Keys == s.store.Keys && r.forwarded == s.forwarded
    ensures HasTable(s, id, table) ==> SameButRows(s.store, r.store, id, table)
    ensures !HasTypedTable(s, id, table, k) || k !in RowsOf(s, id, table) ==> r == s
    ensures HasTypedTable(s, id, table, k) ==>
      HasTable(r, id, table) && RowsOf(r, id, table) == RowsOf(s, id, table) - {k}
    ensures HasTypedTable(s, id, table, k) && k in RowsOf(s, id, table) ==>
      TableNotified(reg, s, r, id, table, DelKey, [KeyValue(k), List(RowsOf(s, id, table)[k])])
  {
    if !HasTypedTable(s, id, table, k) then s
    else Apply(reg, s, id, table, DeleteRow(RowsOf(s, id, table), k), DelKey)
  }

  function DelKeyOf(reg: Registry, s: NodeState, identity: int, id: Nuid, table: string, k: Key): (r: NodeState)
    ensures id.origin != identity ==> r == ForwardTo(s, id.origin, DelKeyOp(id, table, k))
    ensures id.origin == identity ==> r == DelKeyLocal(reg, s, id, table, k)
  {
    if id.origin != identity then ForwardTo(s, id.origin, DelKeyOp(id, table, k))
    else DelKeyLocal(reg, s, id, table, k)
  }

  /** ClearTable: any table of that name is emptied and Clear fires with
      empty arguments, whether or not it held rows. */
  function ClearTableLocal(reg: Registry, s: NodeState, id: Nuid, table: string): (r: NodeState)
    ensures Coherent(s) ==> Coherent(r)
    ensures Extends(s, r) && r.store.Keys == s.store.Keys && r.forwarded == s.forwarded
    ensures HasTable(s, id, table) ==> SameButRows(s.store, r.store, id, table)
    ensures !HasTable(s, id, table) ==> r == s
    ensures HasTable(s, id, table) ==> HasTable(r, id, table) && RowsOf(r, id, table) == map[]
    ensures HasTable(s, id, table) ==> TableNotified(reg, s, r, id, table, Clear, [])
  {
    if !HasTable(s, id, table) then s
    else CallbackTable(reg, WithRows(s, id, table, map[]), id, s.store[id].etype, table, Clear, [])
  }

  function ClearTable(reg: Registry, s: NodeState, identity: int, id: Nuid, table: string): (r: NodeState)
    ensures id.origin != identity ==> r == ForwardTo(s, id.origin, ClearTableOp(id, table))
    ensures id.origin == identity ==> r == ClearTableLocal(reg, s, id, table)
  {
    if id.origin != identity then ForwardTo(s, id.origin, ClearTableOp(id, table))
    else ClearTableLocal(reg, s, id, table)
  }

  /** GetKeyCol: None (default) when the entity, the typed table, the row or
      the column is missing. */
  function GetKeyColLocal(s: NodeState, id: Nuid, table: string, k: Key, col: int): (r: Option<Value>)
    ensures r.Some? <==>
      HasTypedTable(s, id, table, k) && k in RowsOf(s, id, table) && 0 <= col < |RowsOf(s, id, table)[k]|
    ensures r.Some? ==> r.value == RowsOf(s, id, table)[k][col]
  {
    if !HasTypedTable(s, id, table, k) then None
    else if k !in RowsOf(s, id, table) then None
    else ColAt(RowsOf(s, id, table)[k], col)
  }

  /** GetColBool … GetColList. */
  function GetCol(s: NodeState, identity: int, id: Nuid, table: string, k: Key, col: int,
                  remote: Option<Value>): (r: (NodeState, Option<Value>))
    ensures id.origin != identity ==> r == (ForwardTo(s, id.origin, GetColOp(id, table, k, col)), remote)
    ensures id.origin == identity ==> r == (s, GetKeyColLocal(s, id, table, k, col))
  {
    if id.origin != identity then (ForwardTo(s, id.origin, GetColOp(id, table, k, col)), remote)
    else (s, GetKeyColLocal(s, id, table, k, col))
  }

  /** GetKeyValue: NList.Empty (Some([])) when the entity or typed table is
      missing, null (None) when the key is absent, else the row. */
  function GetKeyValueLocal(s: NodeState, id: Nuid, table: string, k: Key): (r: Option<Row>)
    ensures !HasTypedTable(s, id, table, k) ==> r == Some([])
    ensures HasTypedTable(s, id, table, k) ==>
      (r.None? <==> k !in RowsOf(s, id, table)) && (r.Some? ==> r.value == RowsOf(s, id, table)[k])
  {
    if !HasTypedTable(s, id, table, k) then Some([])
    else if k !in RowsOf(s, id, table) then None
    else Some(RowsOf(s, id, table)[k])
  }

  function GetKeyValue(s: NodeState, identity: int, id: Nuid, table: string, k: Key,
                       remote: Option<Row>): (r: (NodeState, Option<Row>))
    ensures id.origin != identity ==> r == (ForwardTo(s, id.origin, GetKeyValueOp(id, table, k)), remote)
    ensures id.origin == identity ==> r == (s, GetKeyValueLocal(s, id, table, k))
  {
    if id.origin != identity then (ForwardTo(s, id.origin, GetKeyValueOp(id, table, k)), remote)
    else (s, GetKeyValueLocal(s, id, table, k))
  }

  /** GetKeys: the keys of any table of that name; none when it is missing. */
  function KeysOf(s: NodeState, id: Nuid, table: string): (r: set<Key>)
    ensures HasTable(s, id, table) ==> r == RowsOf(s, id, table).Keys
    ensures !HasTable(s, id, table) ==> r == {}
  {
    if HasTable(s, id, table) then RowsOf(s, id, table).Keys else {}
  }

  /** A row added under a fresh key and then deleted leaves the entities as
      they were, and the two callbacks carry the same delta. */
  lemma AddThenDelete(reg: Registry, s: NodeState, id: Nuid, table: string, k: Key, row: Row)
    requires HasTypedTable(s, id, table, k) && k !in RowsOf(s, id, table)
    ensures DelKeyLocal(reg, PutKeyValueLocal(reg, s, id, table, k, Some(row), AddKey), id, table, k).store == s.store
  {
    var rows := RowsOf(s, id, table);
    var added := PutKeyValueLocal(reg, s, id, table, k, Some(row), AddKey);
    PutThenDelete(rows, k, row);
    var back := DelKeyLocal(reg, added, id, table, k);
    SameButRowsTrans(s.store, added.store, back.store, id, table);
    SameRowsSameStore(s.store, back.store, id, table);
  }

  /** AddKeyValue and SetKeyValue have the same effect on the entities: both
      insert or overwrite. */
  lemma AddAndSetAgree(reg: Registry, s: NodeState, identity: int, id: Nuid, table: string, k: Key, row: Option<Row>)
    ensures AddKeyValue(reg, s, identity, id, table, k, row).store == SetKeyValue(reg, s, identity, id, table, k, row).store
    ensures |AddKeyValue(reg, s, identity, id, table, k, row).calls| == |SetKeyValue(reg, s, identity, id, table, k, row).calls|
  {
  }

  /** A successful column write is read back, and writing the old value back
      restores the entities. */
  lemma SetColThenGetAndUndo(reg: Registry, s: NodeState, id: Nuid, table: string, k: Key, col: int, v: Value)
    requires HasTypedTable(s, id, table, k)
    requires SetColumn(RowsOf(s, id, table), k, col, v).Changed?
    ensures var once := SetKeyColLocal(reg, s, id, table, k, col, v);
      && GetKeyColLocal(once, id, table, k, col) == Some(v)
      && SetKeyColLocal(reg, once, id, table, k, col, RowsOf(s, id, table)[k][col]).store == s.store
  {
    var rows := RowsOf(s, id, table);
    var once := SetKeyColLocal(reg, s, id, table, k, col, v);
    SetColumnUndo(rows, k, col, v);
    var back := SetKeyColLocal(reg, once, id, table, k, col, rows[k][col]);
    SameButRowsTrans(s.store, once.store, back.store, id, table);
    SameRowsSameStore(s.store, back.store, id, table);
  }

  /** After ClearTable, GetKeys reports no key. */
  lemma ClearThenNoKeys(reg: Registry, s: NodeState, id: Nuid, table: string)
    ensures KeysOf(ClearTableLocal(reg, s, id, table), id, table) == {}
  {
  }

  /** Deleting an absent key fires nothing. */
  lemma DelAbsentIsSilent(reg: Registry, s: NodeState, id: Nuid, table: string, k: Key)
    requires HasTable(s, id, table) && k !in RowsOf(s, id, table)
    ensures DelKeyLocal(reg, s, id, table, k) == s
  {
  }
}
