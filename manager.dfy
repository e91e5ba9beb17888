/** EntityManager: the node's in-memory index from entity id to entity, with
    a one-entry cache of the entity most recently looked up. */
module Manager {
  import opened Values
  import opened Prefabs
  import opened Tables
  import opened Entities
  import opened Ordering

  class EntityManager {
    /** The prefab registry Gen and the priority sort consult. */
    const registry: Registry
    var index: map<Nuid, Entity>
    var cur: Entity?
    /** The tables of the indexed entities (the objects Remove and Clear may
        empty). */
    ghost var Tables: set<Table>

    /** Every indexed entity is valid and carries the id it is stored under
        (so no entity is stored twice), each owns its tables (no table is
        shared by two entities), and the cache is null or the entry stored
        under its id. */
    ghost predicate Valid()
      reads this, index.Values, cur
    {
      && WellFormed(registry)
      && (forall id :: id in index ==> index[id].Valid() && index[id].id == id)
      && (forall id :: id in index ==> index[id].tables.Values <= Tables)
      && Owned()
      && (cur != null ==> cur.id in index && index[cur.id] == cur)
    }

    /** Distinct entries are distinct entities, and no table is shared by
        two of them. */
    ghost predicate Owned()
      reads this, index.Values
    {
      forall i, j :: i in index && j in index && i != j ==>
        index[i] != index[j] && index[i].tables.Values !! index[j].tables.Values
    }

    /** Every indexed entity's type is registered. */
    ghost predicate Typed()
      reads this, index.Values
    {
      forall id :: id in index ==> index[id].etype in registry
    }

    /** The priority of an entity's prefab (0 for an unregistered type). */
    function Priority(e: Entity): int
      reads e
    {
      if e.etype in registry then registry[e.etype].priority else 0
    }

    constructor (registry: Registry)
      requires WellFormed(registry)
      ensures Valid()
      ensures this.registry == registry && index == map[] && cur == null
    {
      this.registry := registry;
      index := map[];
      cur := null;
      Tables := {};
    }

    /** Get: the entity stored under `id`, or null; the cache then holds it. */
    method Get(id: Nuid) returns (e: Entity?)
      requires Valid()
      modifies this`cur
      ensures Valid()
      ensures e == if id in index then index[id] else null
      ensures cur == e
    {
      if cur != null && cur.id == id {
        return cur;
      }
      cur := if id in index then index[id] else null;
      e := cur;
    }

    /** Find: whether `id` is indexed, consulting the cache first. */
    method Find(id: Nuid) returns (found: bool)
      requires Valid()
      ensures found <==> id in index
    {
      if cur != null && cur.id == id {
        return true;
      }
      found := id in index;
    }

    /** Add: ignores null and an id already present; otherwise indexes the
        entity under its id. */
    method Add(e: Entity?)
      requires Valid()
      requires e != null && e.id !in index ==>
        e.Valid() && forall i :: i in index ==> e.tables.Values !! index[i].tables.Values
      modifies this
      ensures Valid() && cur == old(cur)
      ensures e == null || e.id in old(index) ==> index == old(index)
      ensures e != null && e.id !in old(index) ==> index == old(index)[e.id := e]
    {
      if e == null || e.id in index {
        return;
      }
      index := index[e.id := e];
      Tables := Tables + e.tables.Values;
      ValidAfterAdd(e);
    }

    /** Create: null and no change for the empty id, an id already present or
        an unknown type; otherwise a freshly generated entity of that type,
        indexed under `id` and carrying it. */
    method Create(id: Nuid, etype: string) returns (e: Entity?)
      requires Valid()
      modifies this
      ensures Valid() && cur == old(cur)
      ensures e == null <==> id == EmptyId || id in old(index) || etype !in registry
      ensures e == null ==> index == old(index)
      ensures e != null ==>
        && fresh(e) && index == old(index)[id := e]
        && e.View() == GenView(registry[etype]).(id := id)
    {
      if id == EmptyId {
        return null;
      }
      if id in index {
        return null;
      }
      e := Entity.Gen(registry, etype);
      if e == null {
        return null;
      }
      e.SetId(id);
      Add(e);
    }

    /** Indexing one more valid entity under its own id keeps the index valid
        when it is not already indexed, shares no table with an indexed
        entity, and the entities already indexed are untouched. */
    twostate lemma ValidAfterAdd(e: Entity)
      requires old(Valid())
      requires e.id !in old(index) && index == old(index)[e.id := e]
      requires Tables == old(Tables) + e.tables.Values && cur == old(cur)
      requires e.Valid()
      requires forall i :: i in old(index) ==>
        old(index[i]) != e && unchanged(old(index[i])) && e.tables.Values !! old(index[i].tables.Values)
      ensures Valid()
    {
    }

    /** Remove: clears the entity stored under `id`, resets the cache if it
        held that id, drops the entry, and reports whether there was one. */
    method Remove(id: Nuid) returns (removed: bool)
      requires Valid()
      modifies this, index.Values, Tables
      ensures Valid()
      ensures removed <==> id in old(index)
      ensures index == old(index) - {id}
      ensures removed ==> old(index[id]).fields == map[] && old(index[id]).tables == map[]
      ensures removed ==> forall t :: t in old(index[id].tables.Values) ==> t.rows == map[]
      ensures cur == if old(cur) != null && old(cur).id == id then null else old(cur)
      ensures Tables == old(Tables)
      ensures forall i :: i in index ==> unchanged(index[i])
      ensures forall t :: t in Tables && !(removed && t in old(index[id].tables.Values)) ==> t.rows == old(t.rows)
    {
      if id in index {
        var found := index[id];
        found.Clear();
      }
      if cur != null && cur.id == id {
        cur := null;
      }
      removed := id in index;
      index := index - {id};
      ValidAfterDrop(id);
    }

    /** Dropping one entry keeps the index valid when the entities left are
        untouched and the cache no longer names the dropped id. */
    twostate lemma ValidAfterDrop(id: Nuid)
      requires old(Valid())
      requires index == old(index) - {id} && Tables == old(Tables)
      requires forall i :: i in index ==> old(allocated(index[i])) && unchanged(index[i])
      requires cur == if old(cur) != null && old(cur).id == id then null else old(cur)
      requires cur != null ==> unchanged(cur)
      ensures Valid()
    {
    }

    /** GetEntities: every indexed entity exactly once, highest prefab
        priority first. */
    method GetEntities() returns (list: seq<Entity>)
      requires Valid() && Typed()
      ensures forall e :: e in list <==> e in index.Values
      ensures Distinct(list)
      ensures forall i, j :: 0 <= i < j < |list| ==> Priority(list[i]) >= Priority(list[j])
    {
      var items := Enumerate(index.Values);
      var prio := map e | e in index.Values :: Priority(e);
      list := SortByPriority(items, e => if e in prio then prio[e] else 0);
    }

    /** Clear: clears every entity, then empties the index and the cache. */
    method Clear()
      requires Valid()
      modifies this, index.Values, Tables
      ensures Valid()
      ensures index == map[] && cur == null
      ensures forall id :: id in old(index) ==> old(index[id]).fields == map[] && old(index[id]).tables == map[]
      ensures forall id :: id in old(index) ==> forall t :: t in old(index[id].tables.Values) ==> t.rows == map[]
    {
      ClearEntities();
      index := map[];
      cur := null;
    }

    /** The loop of Clear: every indexed entity is cleared, one at a time;
        since no two entities share a table, clearing one leaves the tables
        already emptied as they are. */
    method ClearEntities()
      requires Owned() && forall id :: id in index ==> index[id].tables.Values <= Tables
      modifies index.Values, Tables
      ensures forall id :: id in index ==> index[id].fields == map[] && index[id].tables == map[]
      ensures forall id :: id in index ==> forall t :: t in old(index[id].tables.Values) ==> t.rows == map[]
    {
      var entries := index;
      ghost var owned := map id | id in entries :: entries[id].tables;
      ghost var cleared: set<Table> := {};
      ghost var done: set<Entity> := {};
      var rest := entries.Keys;
      while rest != {}
        invariant rest <= entries.Keys
        invariant forall i, j :: i in owned && j in owned && i != j ==> owned[i].Values !! owned[j].Values
        invariant forall id :: id in rest ==>
          entries[id] !in done && entries[id].tables == owned[id] && owned[id].Values !! cleared
        invariant forall id :: id in entries && id !in rest ==> entries[id] in done && owned[id].Values <= cleared
        invariant forall e :: e in done ==> e.fields == map[] && e.tables == map[]
        invariant forall t :: t in cleared ==> t.rows == map[]
        decreases rest
      {
        var id :| id in rest;
        ClearOwner(entries[id], cleared, done);
        cleared := cleared + owned[id].Values;
        done := done + {entries[id]};
        rest := rest - {id};
      }
    }

    /** One step of ClearEntities: `e` is cleared, and the entities and
        tables cleared before, which `e` is not and does not own, stay
        empty. */
    static method ClearOwner(e: Entity, ghost cleared: set<Table>, ghost done: set<Entity>)
      requires e !in done && e.tables.Values !! cleared
      requires forall t :: t in cleared ==> t.rows == map[]
      requires forall d :: d in done ==> d.fields == map[] && d.tables == map[]
      modifies e, e.tables.Values
      ensures forall d :: d in done + {e} ==> d.fields == map[] && d.tables == map[]
      ensures forall t :: t in cleared + old(e.tables.Values) ==> t.rows == map[]
    {
      e.Clear();
    }
  }
}
