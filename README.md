# Nesh hot-mode entity storage, modelled in Dafny

Nesh is a game server. Game state is made of *entities*, for example a player or an item. Each entity has a type, named *fields* and keyed *tables*, and is identified by a `Nuid` (a unique number plus the identity of the *origin* node that owns it). A node running in Grain (hot) mode keeps its entities in memory:

- an `EntityManager` holds the entities by id;
- every `Entity` holds its `Field`s and `Table`s;
- every `Table` maps a primary key to a row of values.

The `Node` serves the entity, field and table operations for the ids it owns. It hands every operation on a foreign id to the owning node. After every change, it runs the module callbacks of the entity's prefab type and of all its ancestors, oldest ancestor first. It also syncs the change to the client agent, but only while the node and the entity are both activated.

The project models this in two layers.

- **The storage objects as classes.** `Tables.Table`, `Entities.Field`, `Entities.Entity` and `Manager.EntityManager` have the fields of the C# objects. Their methods modify those fields in place.
  - Each row-level operation of a table is proved against a pure transition: `PutRow`, `DeleteRow` or `SetColumn`. The transition also yields the delta that the callbacks receive.
  - Entity generation from a prefab (`Entity.Gen`) is proved to produce exactly `GenView(prefab)`.
  - The entity's one-slot field and table caches are proved consistent with the dictionaries.
- **The node as a state machine over values.** `Pipeline.NodeState` holds:
  - the activation flag;
  - the held entities as `EntityView` values;
  - the traces of the node's collaborators: module callbacks (`calls`), agent syncs (`sent`), operations handed to other nodes (`forwarded`) and persistence runs (`saves`).

  The files `EntityOps`, `FieldOps`, `TableOps` and `Lifecycle` give one specification function per Grain-mode operation of `Node.Entity.cs`, `Node.Field.cs`, `Node.Table.cs` and `Node.cs`. Lemmas relate these functions to each other. Class `Shard.Node` carries the same state in fields. Every method of it is proved to perform exactly the transition of its specification function. The callback loop over the ancestor chain and the activation loops are written as loops with invariants.

Replies from remote nodes are parameters of the operations. So are the set of nodes whose `IsActive` would answer true and the fresh unique number of `Create(type, origin)`.

## Model

| member | source | states |
|---|---|---|
| Values.KeyType | server/src/Nesh.Abstractions/Data/Table.cs:99-132 | every primary key value has one of the five key types a table may be declared with |
| Values.KeyValue | server/src/Nesh.Abstractions/Data/Table.cs:156-165 | the key as listed by GetKeys is never the null value |
| Values.KeyValueInjective | server/src/Nesh.Abstractions/Data/Table.cs:156-165 | distinct primary keys list as distinct values |
| Values.ColAt | server/src/Nesh.Abstractions/Data/Table.cs:134-143 | a column is present exactly when its index is inside the row, and it is then that cell of the row |
| Ordering.Enumerate | server/src/Nesh.Abstractions/Data/Table.cs:167-170 | listing a dictionary's keys yields each key exactly once and nothing else |
| Ordering.InsertAt | server/src/Nesh.Abstractions/Manager/EntityManager.cs:93-104 | inserting an element at its priority position keeps a duplicate-free sequence sorted by descending priority |
| Ordering.SortByPriority | server/src/Nesh.Abstractions/Manager/EntityManager.cs:93-104 | the sort returns the same elements, without duplicates, highest priority first |
| Tables.PutRow | server/src/Nesh.Abstractions/Data/Table.cs:60-80 | a null row changes nothing; otherwise the key maps to the row (insert or overwrite) and the delta is [key, row] |
| Tables.DeleteRow | server/src/Nesh.Abstractions/Data/Table.cs:82-97 | deleting an absent key changes nothing; otherwise the key is gone, the rest is kept and the delta carries the old row |
| Tables.SetColumn | server/src/Nesh.Abstractions/Data/Table.cs:99-132 | fails for a null value, a missing key, a column outside the row or an unchanged value; otherwise only that cell changes and the delta is [key, col, old, new] |
| Tables.PutThenDelete | server/src/Nesh.Abstractions/Data/Table.cs:60-97 | adding a fresh key and deleting it restores the rows and reports the added row |
| Tables.SetColumnUndo | server/src/Nesh.Abstractions/Data/Table.cs:99-132 | writing back the previous cell value restores the rows and reports the swapped delta |
| Tables.Table.constructor | server/src/Nesh.Abstractions/Data/Table.cs:1-58 | a new table has its name and key type and no rows |
| Tables.Table.IsEmpty | server/src/Nesh.Abstractions/Data/Table.cs:48 | empty iff no key is held |
| Tables.Table.Clear | server/src/Nesh.Abstractions/Data/Table.cs:50-53 | all rows are removed |
| Tables.Table.TrySetKeyValue | server/src/Nesh.Abstractions/Data/Table.cs:60-80 | the rows and the result follow PutRow; after success the key reads back the row |
| Tables.Table.TryDelKey | server/src/Nesh.Abstractions/Data/Table.cs:82-97 | the rows and the result follow DeleteRow; afterwards the key is absent |
| Tables.Table.TrySetKeyCol | server/src/Nesh.Abstractions/Data/Table.cs:99-132 | the rows and the result follow SetColumn; after success the cell reads back the value |
| Tables.Table.GetCol | server/src/Nesh.Abstractions/Data/Table.cs:134-143 | the cell value exactly when the key and the column exist, nothing otherwise |
| Tables.Table.GetKeyValue | server/src/Nesh.Abstractions/Data/Table.cs:145-154 | the row exactly when the key exists |
| Tables.Table.GetKeys | server/src/Nesh.Abstractions/Data/Table.cs:156-165 | one listed value per key: every key is listed, nothing else is, and no value twice |
| Tables.Table.GetPrimaryKeys | server/src/Nesh.Abstractions/Data/Table.cs:167-170 | every key once and nothing else |
| Entities.Field.TrySet | server/src/Nesh.Runtime/Node/Node.Field.cs:36-40 | the write succeeds iff the value differs (Field.cs is not part of this model; this is the behaviour its callers rely on); the field then holds the value and the delta is [old, new] |
| Entities.GenView | server/src/Nesh.Abstractions/Data/Entity.cs:150-197 | a generated entity has the prefab's type and is inactive; it has one field per typed field prefab, holding that type's null value, and one empty table per table prefab with a key type |
| Entities.Entity.SetId | server/src/Nesh.Abstractions/Manager/EntityManager.cs:70 | assigning the id changes nothing else of the entity and keeps it valid |
| Entities.Entity.constructor | server/src/Nesh.Abstractions/Data/Entity.cs:24-29 | a new entity has no fields, no tables, empty caches and is inactive |
| Entities.Entity.Clear | server/src/Nesh.Abstractions/Data/Entity.cs:40-49 | every table is emptied and both dictionaries are dropped; the caches are left as they were |
| Entities.Entity.GetField | server/src/Nesh.Abstractions/Data/Entity.cs:51-61 | a cache hit returns the cached field; otherwise the lookup result is cached; with a consistent cache this is the dictionary's field |
| Entities.Entity.GetTable | server/src/Nesh.Abstractions/Data/Entity.cs:63-73 | the same for tables |
| Entities.Entity.GetFields | server/src/Nesh.Abstractions/Data/Entity.cs:75-81 | every field once and nothing else |
| Entities.Entity.GetTables | server/src/Nesh.Abstractions/Data/Entity.cs:83-89 | every table once and nothing else |
| Entities.Entity.CreateField | server/src/Nesh.Abstractions/Data/Entity.cs:91-107 | a duplicate name is refused and changes nothing; otherwise a fresh field with the name and value is added and nothing else changes |
| Entities.Entity.CreateTable | server/src/Nesh.Abstractions/Data/Entity.cs:109-148 | a duplicate name or a non-key type is refused; otherwise a fresh empty table with that key type is added |
| Entities.Entity.Gen | server/src/Nesh.Abstractions/Data/Entity.cs:150-197 | null exactly for an unregistered type; otherwise a fresh valid entity equal to GenView of the prefab |
| Entities.Entity.AddPrefabFields | server/src/Nesh.Abstractions/Data/Entity.cs:161-189 | the fields are exactly GenFields of the prefab |
| Entities.Entity.AddPrefabTables | server/src/Nesh.Abstractions/Data/Entity.cs:191-194 | the tables are exactly GenTables of the prefab |
| Manager.EntityManager.constructor | server/src/Nesh.Abstractions/Manager/EntityManager.cs:1-18 | an empty manager with no current entity |
| Manager.EntityManager.Get | server/src/Nesh.Abstractions/Manager/EntityManager.cs:19-28 | the indexed entity or null; the result becomes the current entity |
| Manager.EntityManager.Find | server/src/Nesh.Abstractions/Manager/EntityManager.cs:40-48 | true iff the id is indexed |
| Manager.EntityManager.Add | server/src/Nesh.Abstractions/Manager/EntityManager.cs:30-38 | a null entity or a held id changes nothing; otherwise the entity is indexed under its id |
| Manager.EntityManager.Create | server/src/Nesh.Abstractions/Manager/EntityManager.cs:50-72 | null iff the id is empty, already held or the type is unregistered; otherwise a fresh entity equal to the prefab's generated entity with the given id is indexed under it |
| Manager.EntityManager.Remove | server/src/Nesh.Abstractions/Manager/EntityManager.cs:74-88 | true iff the id was held; the id is unindexed; the removed entity's fields and tables are dropped and each of its tables is emptied; every entity still indexed is untouched and every other table keeps its rows; a current entity with that id is forgotten |
| Manager.EntityManager.GetEntities | server/src/Nesh.Abstractions/Manager/EntityManager.cs:90-107 | every held entity exactly once, highest prefab priority first |
| Manager.EntityManager.ClearEntities | server/src/Nesh.Abstractions/Manager/EntityManager.cs:111-114 | the loop clears every indexed entity, and since no two entities share a table, every table an entity owned ends empty |
| Manager.EntityManager.Clear | server/src/Nesh.Abstractions/Manager/EntityManager.cs:109-118 | every held entity's fields and tables are dropped and every table it owned is emptied; the index is emptied and the current entity forgotten |
| Pipeline.ForwardTo | server/src/Nesh.Runtime/Node/Node.Entity.cs:65-69 | handing an operation to another node only appends it to the forwarded trace |
| Pipeline.Chain | server/src/Nesh.Runtime/Node/Node.cs:211-221 | the callback order is the ancestors from last to first, then the entity's own type |
| Pipeline.ChainStep | server/src/Nesh.Runtime/Node/Node.cs:211-219 | each loop step extends the dispatched prefix of the chain by one type |
| Pipeline.ChainMultiset | server/src/Nesh.Runtime/Node/Node.cs:211-221 | each ancestor and the type itself are dispatched exactly once |
| Pipeline.Sync | server/src/Nesh.Runtime/Node/Node.cs:138-154 | a sync reaches the agent only when the node and the held entity are activated; nothing else changes |
| Pipeline.CallbackEntity | server/src/Nesh.Runtime/Node/Node.cs:192-222 | an unregistered type dispatches nothing; otherwise one entity callback per type of the chain is appended, in chain order, and nothing else changes |
| Pipeline.CallbackEntityShape | server/src/Nesh.Runtime/Node/Node.cs:192-222 | the appended callbacks name each type of the chain in order, own type last |
| Pipeline.CallbackField | server/src/Nesh.Runtime/Node/Node.cs:224-261 | an unregistered type dispatches nothing; otherwise one field callback per type of the chain, in order; the sync only when the prefab marks the field synced and the gate is open |
| Pipeline.CallbackTable | server/src/Nesh.Runtime/Node/Node.cs:263-300 | an unregistered type dispatches nothing; otherwise one table callback per type of the chain, in order; the sync only when the prefab marks the table synced and the gate is open |
| Pipeline.Command | server/src/Nesh.Runtime/Node/Node.cs:302-321 | a held or own id gets the command callback here; any other id is handed to its origin; nothing else changes |
| Pipeline.Custom | server/src/Nesh.Runtime/Node/Node.cs:323-341 | a held id gets the custom callback; a foreign id with an active origin is handed to it |
| EntityOps.Exists | server/src/Nesh.Runtime/Node/Node.Entity.cs:14-34 | a foreign id is asked of its origin; an own id exists iff it is held |
| EntityOps.GetType | server/src/Nesh.Runtime/Node/Node.Entity.cs:36-61 | a foreign id is asked of its origin; an own id yields its entity's type, or the empty string when not held |
| EntityOps.Create | server/src/Nesh.Runtime/Node/Node.Entity.cs:63-92 | a foreign id is handed on and the reply is returned; an own id is refused (empty id, nothing changes) when empty, held or unregistered; otherwise the generated entity is stored under the id and OnCreate runs along the chain; no sync is sent and no save runs |
| EntityOps.CreateIn | server/src/Nesh.Runtime/Node/Node.Entity.cs:94-99 | exactly Create under a fresh id of the origin's node: an own origin yields that id, newly held; a foreign origin hands the creation to it |
| EntityOps.Entry | server/src/Nesh.Runtime/Node/Node.Entity.cs:101-137 | a foreign id with an active origin is handed on; otherwise a held entity gets OnEntry along its type's chain and a gated OnEntry sync carrying the entity, and an id not held changes nothing; entities are unchanged |
| EntityOps.EntrySyncsIffGate | server/src/Nesh.Runtime/Node/Node.Entity.cs:101-137 | an own Entry sends exactly one message iff the sync gate is open |
| EntityOps.Load | server/src/Nesh.Runtime/Node/Node.Entity.cs:139-150 | nothing for a null entity; otherwise it replaces any held entity of that id and OnLoad runs along the chain of its type; nothing is sent, forwarded or saved |
| EntityOps.LoadIdempotentOnStore | server/src/Nesh.Runtime/Node/Node.Entity.cs:139-150 | loading the same entity twice holds the same entities as loading it once |
| EntityOps.Leave | server/src/Nesh.Runtime/Node/Node.Entity.cs:152-172 | a held entity gets OnLeave along its type's chain and a gated OnLeave sync; an id not held is handed to an active foreign origin, otherwise nothing happens; entities are unchanged |
| EntityOps.DestroyAsWritten | server/src/Nesh.Runtime/Node/Node.Entity.cs:174-199 | as written, a foreign id with an active origin is handed on; otherwise the entity, if held, is removed and nothing else happens |
| EntityOps.DestroyAsWrittenIsSilent | server/src/Nesh.Runtime/Node/Node.Entity.cs:195-199 | the as-written Destroy never dispatches OnDestroy and never syncs |
| EntityOps.Destroy | server/src/Nesh.Runtime/Node/Node.Entity.cs:174-246 | a foreign id with an active origin is handed on; otherwise a held entity is removed and OnDestroy runs along the chain of the type it had while held; the sync is gated |
| EntityOps.DestroyDiscrepancy | server/src/Nesh.Runtime/Node/Node.Entity.cs:195-199 | for a held own entity of a registered type, both versions remove it, but only the corrected one dispatches OnDestroy, once per type of its chain |
| EntityOps.DestroyNeverSyncs | server/src/Nesh.Runtime/Node/Node.Entity.cs:243-245 | the OnDestroy sync never reaches the agent, because the entity is no longer held |
| EntityOps.CreateThenExists | server/src/Nesh.Runtime/Node/Node.Entity.cs:14-92 | after a successful Create the id exists with the requested type |
| EntityOps.CreateThenDestroy | server/src/Nesh.Runtime/Node/Node.Entity.cs:63-92 | destroying a just-created entity restores the held entities |
| Lifecycle.ActivateAll | server/src/Nesh.Runtime/Node/Node.cs:105-109 | every held entity is kept, with its activation flag set |
| Lifecycle.Active | server/src/Nesh.Runtime/Node/Node.cs:103-117 | the node ends activated, holding its entities all activated |
| Lifecycle.ActiveReplayKeepsStore | server/src/Nesh.Runtime/Node/Node.cs:111-114 | replaying Entry changes no entity and the node flag, and only appends to the traces |
| Lifecycle.ReplayWhileInactiveIsSilent | server/src/Nesh.Runtime/Node/Node.cs:111-116 | replays run before the node flag is raised, so they send nothing |
| Lifecycle.ActiveSendsNothing | server/src/Nesh.Runtime/Node/Node.cs:103-117 | activating an inactive node sends nothing to the agent |
| Lifecycle.ActiveOpensGate | server/src/Nesh.Runtime/Node/Node.cs:103-117 | after Active every held entity passes the sync gate |
| Lifecycle.Deactive | server/src/Nesh.Runtime/Node/Node.cs:119-123 | the node is deactivated and one save runs; nothing else changes |
| Lifecycle.ScheduledSave | server/src/Nesh.Runtime/Node/Node.cs:132-136 | a save runs only while the node is active |
| Lifecycle.DeactiveClosesGate | server/src/Nesh.Runtime/Node/Node.cs:119-154 | after Deactive no sync passes and scheduled saves stop |
| FieldOps.SetFieldLocal | server/src/Nesh.Runtime/Node/Node.Field.cs:11-57 | nothing for a null value, a missing entity or field, or an unchanged value; otherwise only that field changes and the Change callbacks carry [old, new] |
| FieldOps.SetField | server/src/Nesh.Runtime/Node/Node.Field.cs:59-141 | a foreign id is handed to its origin and nothing else changes; an own id is written locally |
| FieldOps.GetFieldLocal | server/src/Nesh.Runtime/Node/Node.Field.cs:147-171 | the value exactly when the entity and the field exist |
| FieldOps.GetField | server/src/Nesh.Runtime/Node/Node.Field.cs:173-248 | a foreign id yields the origin's reply; an own id reads locally and changes nothing |
| FieldOps.GetAfterSet | server/src/Nesh.Runtime/Node/Node.Field.cs:11-57 | a read after a successful write returns the value; every other field reads as before |
| FieldOps.SetFieldIdempotent | server/src/Nesh.Runtime/Node/Node.Field.cs:11-57 | a repeated write changes nothing and dispatches nothing |
| FieldOps.SetFieldUndo | server/src/Nesh.Runtime/Node/Node.Field.cs:11-57 | writing back the old value restores the entities and reports the swapped delta |
| FieldOps.CallbackIffWritten | server/src/Nesh.Runtime/Node/Node.Field.cs:11-57 | the chain's callbacks are dispatched iff the write changes the field |
| TableOps.WithRows | server/src/Nesh.Runtime/Node/Node.Table.cs:19-43 | replacing one table's rows touches nothing else of the node |
| TableOps.Apply | server/src/Nesh.Runtime/Node/Node.Table.cs:19-43 | a failed row operation changes nothing; a successful one installs the new rows, runs the table callbacks along the entity type's chain with its delta, and sends the table sync when the prefab marks the table synced and the gate is open |
| TableOps.SameRowsSameStore | server/src/Nesh.Runtime/Node/Node.Table.cs:19-43 | two node states that differ only in one table's rows, with equal rows, are equal |
| TableOps.SameButRowsTrans | server/src/Nesh.Runtime/Node/Node.Table.cs:19-43 | differing only in one table's rows is transitive |
| TableOps.SetKeyColLocal | server/src/Nesh.Runtime/Node/Node.Table.cs:11-69 | nothing for a null value or a missing or differently keyed table; otherwise SetColumn is applied to that table only |
| TableOps.SetCol | server/src/Nesh.Runtime/Node/Node.Table.cs:71-153 | a foreign id is handed to its origin and nothing else changes; an own id is written locally by SetKeyColLocal |
| TableOps.PutKeyValueLocal | server/src/Nesh.Runtime/Node/Node.Table.cs:262-361 | nothing for a null row or a missing or differently keyed table; otherwise PutRow is applied to that table only, and the event's callbacks and gated sync carry [key, row] |
| TableOps.AddKeyValue | server/src/Nesh.Runtime/Node/Node.Table.cs:262-311 | a foreign id is handed to its origin and nothing else changes; an own id gets PutRow with the AddKey event |
| TableOps.SetKeyValue | server/src/Nesh.Runtime/Node/Node.Table.cs:313-361 | a foreign id is handed to its origin and nothing else changes; an own id gets PutRow with the SetKey event |
| TableOps.AddAndSetAgree | server/src/Nesh.Runtime/Node/Node.Table.cs:262-361 | AddKeyValue overwrites an existing key exactly as SetKeyValue does |
| TableOps.DelKeyLocal | server/src/Nesh.Runtime/Node/Node.Table.cs:405-454 | nothing for a missing table or key; otherwise DeleteRow is applied to that table only, and the DelKey callbacks and gated sync carry [key, old row] |
| TableOps.DelKeyOf | server/src/Nesh.Runtime/Node/Node.Table.cs:405-454 | a foreign id is handed to its origin and nothing else changes; an own id is deleted locally |
| TableOps.DelAbsentIsSilent | server/src/Nesh.Runtime/Node/Node.Table.cs:405-454 | deleting an absent key changes nothing and dispatches nothing |
| TableOps.AddThenDelete | server/src/Nesh.Runtime/Node/Node.Table.cs:262-311 | adding a fresh key and deleting it restores the held entities |
| TableOps.ClearTableLocal | server/src/Nesh.Runtime/Node/Node.Table.cs:363-403 | nothing for a missing table; otherwise the table is emptied, and the Clear callbacks and gated sync run with no arguments |
| TableOps.ClearTable | server/src/Nesh.Runtime/Node/Node.Table.cs:363-403 | a foreign id is handed to its origin and nothing else changes; an own id is cleared locally |
| TableOps.ClearThenNoKeys | server/src/Nesh.Runtime/Node/Node.Table.cs:363-403 | after a clear the table lists no key |
| TableOps.GetKeyColLocal | server/src/Nesh.Runtime/Node/Node.Table.cs:158-182 | the cell value exactly when the typed table, the key and the column exist |
| TableOps.GetCol | server/src/Nesh.Runtime/Node/Node.Table.cs:184-259 | a foreign id yields the origin's reply; an own id reads locally and changes nothing |
| TableOps.SetColThenGetAndUndo | server/src/Nesh.Runtime/Node/Node.Table.cs:11-69 | a written cell reads back, and writing back the old value restores the held entities |
| TableOps.GetKeyValueLocal | server/src/Nesh.Runtime/Node/Node.Table.cs:456-488 | an empty row when the typed table is missing; otherwise the row when the key is held |
| TableOps.GetKeyValue | server/src/Nesh.Runtime/Node/Node.Table.cs:456-488 | a foreign id yields the origin's reply; an own id reads locally |
| TableOps.KeysOf | server/src/Nesh.Runtime/Node/Node.Table.cs:490-522 | the keys of the table, none when it is missing |
| Shard.Node.constructor | server/src/Nesh.Runtime/Node/Node.cs:1-97 | a fresh node: inactive, no entities, empty traces |
| Shard.Node.ForwardTo | server/src/Nesh.Runtime/Node/Node.Entity.cs:65-69 | performs Pipeline.ForwardTo |
| Shard.Node.IsActive | server/src/Nesh.Runtime/Node/Node.cs:98-101 | the node's activation flag |
| Shard.Node.Sync | server/src/Nesh.Runtime/Node/Node.cs:138-154 | performs Pipeline.Sync |
| Shard.Node.CallbackEntity | server/src/Nesh.Runtime/Node/Node.cs:192-222 | the dispatch loop performs Pipeline.CallbackEntity |
| Shard.Node.DispatchField | server/src/Nesh.Runtime/Node/Node.cs:245-253 | the dispatch loop appends exactly the chain's field callbacks |
| Shard.Node.CallbackField | server/src/Nesh.Runtime/Node/Node.cs:224-261 | performs Pipeline.CallbackField |
| Shard.Node.DispatchTable | server/src/Nesh.Runtime/Node/Node.cs:284-292 | the dispatch loop appends exactly the chain's table callbacks |
| Shard.Node.CallbackTable | server/src/Nesh.Runtime/Node/Node.cs:263-300 | performs Pipeline.CallbackTable |
| Shard.Node.Command | server/src/Nesh.Runtime/Node/Node.cs:302-321 | performs Pipeline.Command |
| Shard.Node.Custom | server/src/Nesh.Runtime/Node/Node.cs:323-341 | performs Pipeline.Custom |
| Shard.Node.Deactive | server/src/Nesh.Runtime/Node/Node.cs:119-123 | performs Lifecycle.Deactive |
| Shard.Node.ScheduledSave | server/src/Nesh.Runtime/Node/Node.cs:132-136 | performs Lifecycle.ScheduledSave |
| Shard.Node.Active | server/src/Nesh.Runtime/Node/Node.cs:103-117 | replays Entry over every held entity once, highest prefab priority first, then performs Lifecycle.Active for that order |
| Shard.Node.ActivateEntities | server/src/Nesh.Runtime/Node/Node.cs:105-109 | the loop sets every entity's activation flag (Lifecycle.ActivateAll) |
| Shard.Node.ReplayEntries | server/src/Nesh.Runtime/Node/Node.cs:111-114 | the loop performs Lifecycle.EntryAll |
| Shard.Node.Exists | server/src/Nesh.Runtime/Node/Node.Entity.cs:14-34 | performs EntityOps.Exists |
| Shard.Node.GetType | server/src/Nesh.Runtime/Node/Node.Entity.cs:36-61 | performs EntityOps.GetType |
| Shard.Node.Create | server/src/Nesh.Runtime/Node/Node.Entity.cs:63-92 | performs EntityOps.Create |
| Shard.Node.CreateIn | server/src/Nesh.Runtime/Node/Node.Entity.cs:94-99 | performs EntityOps.CreateIn |
| Shard.Node.Entry | server/src/Nesh.Runtime/Node/Node.Entity.cs:101-137 | performs EntityOps.Entry |
| Shard.Node.Load | server/src/Nesh.Runtime/Node/Node.Entity.cs:139-150 | performs EntityOps.Load |
| Shard.Node.Leave | server/src/Nesh.Runtime/Node/Node.Entity.cs:152-172 | performs EntityOps.Leave |
| Shard.Node.Destroy | server/src/Nesh.Runtime/Node/Node.Entity.cs:174-246 | performs the corrected EntityOps.Destroy |
| Shard.Node.GetEntities | server/src/Nesh.Runtime/Node/Node.Entity.cs:248-270 | every held entity exactly once, highest prefab priority first |
| Shard.Node.SetFieldLocal | server/src/Nesh.Runtime/Node/Node.Field.cs:11-57 | performs FieldOps.SetFieldLocal |
| Shard.Node.SetField | server/src/Nesh.Runtime/Node/Node.Field.cs:59-141 | performs FieldOps.SetField |
| Shard.Node.GetField | server/src/Nesh.Runtime/Node/Node.Field.cs:147-248 | performs FieldOps.GetField |
| Shard.Node.Apply | server/src/Nesh.Runtime/Node/Node.Table.cs:19-43 | performs TableOps.Apply |
| Shard.Node.SetKeyColLocal | server/src/Nesh.Runtime/Node/Node.Table.cs:11-69 | performs TableOps.SetKeyColLocal |
| Shard.Node.SetCol | server/src/Nesh.Runtime/Node/Node.Table.cs:71-153 | performs TableOps.SetCol |
| Shard.Node.AddKeyValue | server/src/Nesh.Runtime/Node/Node.Table.cs:262-311 | performs TableOps.AddKeyValue |
| Shard.Node.SetKeyValue | server/src/Nesh.Runtime/Node/Node.Table.cs:313-361 | performs TableOps.SetKeyValue |
| Shard.Node.ClearTable | server/src/Nesh.Runtime/Node/Node.Table.cs:363-403 | performs TableOps.ClearTable |
| Shard.Node.DelKey | server/src/Nesh.Runtime/Node/Node.Table.cs:405-454 | performs TableOps.DelKeyOf |
| Shard.Node.GetCol | server/src/Nesh.Runtime/Node/Node.Table.cs:158-259 | performs TableOps.GetCol |
| Shard.Node.GetKeyValue | server/src/Nesh.Runtime/Node/Node.Table.cs:456-488 | performs TableOps.GetKeyValue |
| Shard.Node.GetKeys | server/src/Nesh.Runtime/Node/Node.Table.cs:490-522 | a foreign id yields the origin's reply; an own id lists each key of the table once, and nothing else |

## Left out

- **Cold (Cache) mode.** The Redis-backed branches of every node operation are not modelled: `Node.Cache.cs`, the `NodeType.Cache` branches and `GetCacheType`. The one place the Grain path reaches into them is `Destroy` (see Findings).
- **Persistence.** `Node.Persist.cs` (save and load of entities to the database) is not modelled. A save is counted in `saves`.
- **Not modelled at all:** the Orleans grain lifecycle (`OnActivateAsync`, `OnDeactivateAsync`), timers, `BindAgent`, node creation and logging.
- **Remote calls** are not modelled as calls. A call to another node is recorded in `forwarded`. Its reply is a parameter. So is the set of nodes whose `IsActive` answers true, and so is the fresh unique number.
- **Code the model cannot see.** `Field`, `Nuid`, `NList`, `Prefabs`, `NModule` and `Global` are not part of this model.
  - `Field.TrySet` is modelled as "fails on an unchanged value".
  - `Nuid.Empty` is taken as (0, 0).
  - The `Global.NULL_*` values are chosen per type.
  - Module callbacks are recorded as `Call` values. A callback that re-enters the node is not modelled.
- **Typed wrappers.** `SetFieldBool` … `SetFieldList`, `GetFieldBool` …, `SetColBool` … and `GetColBool` … are collapsed into one operation over the tagged `Value`. The C# generic type argument is not modelled. Integer widths (`int`, `long`) are unbounded. Floats are opaque 32-bit patterns compared for equality only.
- **Event numbers.** Event enums are datatypes; their integer casts in sync messages are not modelled.
- **The node's entities as values.** The node keeps `EntityView` values, not the `EntityManager`, `Entity` and `Table` objects. So the model does not capture three things:
  - aliasing between those objects;
  - `Load` of an object that `Remove` then clears;
  - the staleness of an entity's caches after `Entity.Clear`.

  The objects themselves are modelled separately, in `Tables`, `Entities` and `Manager`.
- **A field or table the prefab does not declare.** The sync decision's dictionary lookup would throw in C#. Here it counts as "not synced".
- Manager.EntityManager.GetEntities: requires every held entity's type to be registered. The C# comparer dereferences a null prefab otherwise, and that exception is not modelled.
- Shard.Node.GetEntities and Shard.Node.Active: an entity whose type is not registered sorts with priority 0. The C# comparer dereferences a null prefab there, and that exception is not modelled.
- Tables.SetColumn, Entities.Field.TrySet, FieldOps.SetFieldLocal, TableOps.SetKeyColLocal: a float is compared by its 32-bit pattern. C# `float.Equals` treats +0.0 and -0.0 as equal and NaN as equal to NaN. So writing -0.0 over a cell or field holding +0.0 is a change here and a no-op in C#.
- Tables.Table.TrySetKeyValue and Tables.Table.TrySetKeyCol: rows are values. In C#, `TrySetKeyValue` stores the caller's `NList` and puts that same list into the delta (Table.cs lines 66-77), and `TrySetKeyCol` writes into the stored row in place (line 123). A caller that mutates that list afterwards changes the table; the model does not capture this aliasing.
- Entities.Entity.CreateField and Entities.Entity.CreateTable: a duplicate name is reported through the `duplicate` result and changes nothing. In C#, a duplicate name throws an exception (Entity.cs lines 94-99 and 112-117), which the model does not capture.
- Values.ColAt: `NList.Get` past the end of the row is taken as "no value". NList.cs is not part of this model.
- Ordering.SortByPriority: the order among entities of equal priority is left open. `List.Sort` is not stable, so the source fixes no such order either.

## Findings

| source | as written | input that shows it | evidently intended | confidence | as-written member | corrected member |
|---|---|---|---|---|---|---|
| server/src/Nesh.Runtime/Node/Node.Entity.cs:195-199 | `if (EntityManager.Remove(id)) { log error; return; }` returns early when the removal succeeds, so the OnDestroy callbacks and sync at lines 243-245 are never reached in Grain mode | a Grain node destroying an own-origin id it holds, of a registered type | `if (!EntityManager.Remove(id))`, and read the entity's type before removing it: `CallbackEntity` looks the type up in the manager (Node.cs:192-203), and after the removal falls back to `GetCacheType`, which Grain mode never writes (Node.Cache.cs:46-52); so both changes are needed for OnDestroy to run along the type's chain | not executed; high (the log text says "Failed" on the success path) | EntityOps.DestroyAsWritten (EntityOps.DestroyDiscrepancy, EntityOps.DestroyAsWrittenIsSilent) | EntityOps.Destroy (used by Shard.Node.Destroy) |

Even with the correction, the OnDestroy sync at line 245 never reaches the agent. The sync gate needs the entity to be held, and it is already removed (`EntityOps.DestroyNeverSyncs`).
