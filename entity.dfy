/** Entity: a schema-shaped container of named fields and tables, with a
    one-entry lookup cache for each. */
module Entities {
  import opened Values
  import opened Prefabs
  import opened Tables
  import opened Ordering

  /** A named field holding one value; TrySet reports a change only when the
      new value differs from the stored one. */
  class Field {
    const name: string
    var value: Value

    constructor (name: string, value: Value)
      ensures this.name == name && this.value == value
    {
      this.name := name;
      this.value := value;
    }

    method TrySet(v: Value) returns (ok: bool, result: Option<seq<Value>>)
      modifies this
      ensures ok <==> old(value) != v
      ensures value == v
      ensures result == if ok then Some([old(value), v]) else None
    {
      if value == v {
        return false, None;
      }
      result := Some([value, v]);
      value := v;
      ok := true;
    }
  }

  /** The abstract content of an entity. */
  datatype EntityView = EntityView(
    id: Nuid,
    etype: string,
    activated: bool,
    fields: map<string, Value>,
    tables: map<string, TableView>)

  /** The fields Gen creates for a prefab: one per declared field whose type
      has a null default, holding that default. */
  function GenFields(p: EntityPrefab): map<string, Value> {
    map n | n in p.fields && NullOf(p.fields[n].ftype).Some? :: NullOf(p.fields[n].ftype).value
  }

  /** The tables Gen creates for a prefab: one empty table per declared table
      whose key type is one of the five key types. */
  function GenTables(p: EntityPrefab): map<string, TableView> {
    map n | n in p.tables && IsKeyType(p.tables[n].keyType) :: TableView(p.tables[n].keyType, map[])
  }

  /** What Gen builds for a prefab (before the caller assigns an id). */
  function GenView(p: EntityPrefab): (v: EntityView)
    ensures v.etype == p.etype && !v.activated
    ensures v.fields.Keys <= p.fields.Keys && v.tables.Keys <= p.tables.Keys
    ensures forall n :: n in p.fields && p.fields[n].ftype != TNone ==> n in v.fields
    ensures forall n :: n in v.fields ==> Some(v.fields[n]) == NullOf(p.fields[n].ftype)
    ensures forall n :: n in v.tables <==> n in p.tables && IsKeyType(p.tables[n].keyType)
    ensures forall n :: n in v.tables ==> v.tables[n].rows == map[]
  {
    EntityView(EmptyId, p.etype, false, GenFields(p), GenTables(p))
  }

  class Entity {
    var id: Nuid
    var etype: string
    var activated: bool
    var fields: map<string, Field>
    var tables: map<string, Table>
    var fieldCache: Field?
    var tableCache: Table?

    /** Every field and table is stored under its own name. */
    ghost predicate Named()
      reads this
    {
      && (forall n :: n in fields ==> fields[n].name == n)
      && (forall n :: n in tables ==> tables[n].name == n)
    }

    /** The one-entry caches are empty or hold the entry stored under their name. */
    ghost predicate CacheConsistent()
      reads this
    {
      && (fieldCache != null ==> fieldCache.name in fields && fields[fieldCache.name] == fieldCache)
      && (tableCache != null ==> tableCache.name in tables && tables[tableCache.name] == tableCache)
    }

    ghost predicate Valid()
      reads this
    {
      Named() && CacheConsistent()
    }

    /** The abstract content: the lookup caches are not part of it. */
    ghost function View(): EntityView
      reads this, fields.Values, tables.Values
    {
      EntityView(id, etype, activated,
                 map n | n in fields :: fields[n].value,
                 map n | n in tables :: tables[n].View())
    }

    /** The Id setter: only the id of the abstract content changes. */
    method SetId(id: Nuid)
      modifies this`id
      ensures Valid() <==> old(Valid())
      ensures View() == old(View()).(id := id)
    {
      this.id := id;
      assert View().fields == old(View().fields);
      assert View().tables == old(View().tables);
    }

    /** The entry a dictionary lookup finds, or null. */
    function LookupField(name: string): Field?
      reads this
    {
      if name in fields then fields[name] else null
    }

    function LookupTable(name: string): Table?
      reads this
    {
      if name in tables then tables[name] else null
    }

    /** A fresh entity has no fields, no tables and is not activated. */
    constructor ()
      ensures Valid()
      ensures fields == map[] && tables == map[] && !activated
      ensures fieldCache == null && tableCache == null
      ensures id == EmptyId && etype == ""
    {
      fields := map[];
      tables := map[];
      fieldCache := null;
      tableCache := null;
      activated := false;
      id := EmptyId;
      etype := "";
    }

    /** Empties every table, then drops all fields and tables. The caches are
        left as they were, so the entity stays valid only if both were empty. */
    method Clear()
      modifies this, tables.Values
      ensures fields == map[] && tables == map[]
      ensures forall t :: t in old(tables.Values) ==> t.rows == map[]
      ensures fieldCache == old(fieldCache) && tableCache == old(tableCache)
      ensures id == old(id) && etype == old(etype) && activated == old(activated)
      ensures Valid() <==> fieldCache == null && tableCache == null
    {
      var rest := tables.Keys;
      while rest != {}
        invariant rest <= tables.Keys
        invariant forall n :: n in tables && n !in rest ==> tables[n].rows == map[]
        invariant fields == old(fields) && tables == old(tables)
        invariant fieldCache == old(fieldCache) && tableCache == old(tableCache)
        invariant id == old(id) && etype == old(etype) && activated == old(activated)
        decreases rest
      {
        var n :| n in rest;
        tables[n].Clear();
        rest := rest - {n};
      }
      fields := map[];
      tables := map[];
    }

    /** GetField: with a consistent cache, the field stored under the name or
        null; the cache then holds the result. */
    method GetField(name: string) returns (f: Field?)
      modifies this`fieldCache
      ensures f == if old(fieldCache) != null && old(fieldCache).name == name
                   then old(fieldCache) else LookupField(name)
      ensures fieldCache == f
      ensures Named() && old(CacheConsistent()) ==> f == LookupField(name) && CacheConsistent()
    {
      if fieldCache != null && fieldCache.name == name {
        return fieldCache;
      }
      fieldCache := LookupField(name);
      f := fieldCache;
    }

    /** GetTable: with a consistent cache, the table stored under the name or
        null; the cache then holds the result. */
    method GetTable(name: string) returns (t: Table?)
      modifies this`tableCache
      ensures t == if old(tableCache) != null && old(tableCache).name == name
                   then old(tableCache) else LookupTable(name)
      ensures tableCache == t
      ensures Named() && old(CacheConsistent()) ==> t == LookupTable(name) && CacheConsistent()
    {
      if tableCache != null && tableCache.name == name {
        return tableCache;
      }
      tableCache := LookupTable(name);
      t := tableCache;
    }

    /** GetFields: every field exactly once. */
    method GetFields() returns (found: seq<Field>)
      ensures |found| == |fields.Values|
      ensures forall f :: f in found <==> f in fields.Values
      ensures Distinct(found)
    {
      found := Enumerate(fields.Values);
    }

    /** GetTables: every table exactly once. */
    method GetTables() returns (found: seq<Table>)
      ensures |found| == |tables.Values|
      ensures forall t :: t in found <==> t in tables.Values
      ensures Distinct(found)
    {
      found := Enumerate(tables.Values);
    }

    /** CreateField: fails (the source throws) when the name is taken;
        otherwise adds exactly one field holding `v`. */
    method CreateField(name: string, v: Value) returns (duplicate: bool, f: Field?)
      requires Valid()
      modifies this
      ensures Valid()
      ensures duplicate <==> name in old(fields)
      ensures duplicate ==> f == null && fields == old(fields)
      ensures !duplicate ==>
        && f != null && fresh(f) && f.name == name && f.value == v
        && fields == old(fields)[name := f]
      ensures tables == old(tables) && fieldCache == old(fieldCache) && tableCache == old(tableCache)
      ensures id == old(id) && etype == old(etype) && activated == old(activated)
    {
      if name in fields {
        return true, null;
      }
      f := new Field(name, v);
      fields := fields[name := f];
      duplicate := false;
    }

    /** CreateTable: fails (the source throws) when the name is taken; adds one
        empty table for the five key types and nothing (a null result) for
        any other key type. */
    method CreateTable(name: string, keyType: VarType) returns (duplicate: bool, t: Table?)
      requires Valid()
      modifies this
      ensures Valid()
      ensures duplicate <==> name in old(tables)
      ensures duplicate || !IsKeyType(keyType) ==> t == null && tables == old(tables)
      ensures !duplicate && IsKeyType(keyType) ==>
        && t != null && fresh(t) && t.name == name && t.keyType == keyType && t.rows == map[]
        && tables == old(tables)[name := t]
      ensures fields == old(fields) && fieldCache == old(fieldCache) && tableCache == old(tableCache)
      ensures id == old(id) && etype == old(etype) && activated == old(activated)
    {
      if name in tables {
        return true, null;
      }
      duplicate := false;
      t := null;
      match keyType {
        case TBool => t := new Table(name, TBool);
        case TInt => t := new Table(name, TInt);
        case TLong => t := new Table(name, TLong);
        case TNuid => t := new Table(name, TNuid);
        case TString => t := new Table(name, TString);
        case _ =>
      }
      if t != null {
        tables := tables[name := t];
      }
    }

    /** Gen: null for an unknown type; otherwise a fresh entity of that type
        with one null-valued field per prefab field and one empty table per
        prefab table. */
    static method Gen(reg: Registry, etype: string) returns (e: Entity?)
      requires etype in reg ==> PrefabWellFormed(reg[etype])
      ensures e == null <==> etype !in reg
      ensures e != null ==> fresh(e) && e.Valid() && e.View() == GenView(reg[etype])
      ensures e != null ==> (forall n :: n in e.fields ==> fresh(e.fields[n])) && (forall n :: n in e.tables ==> fresh(e.tables[n]))
      ensures e != null ==> e.fieldCache == null && e.tableCache == null
    {
      if etype !in reg {
        return null;
      }
      var p := reg[etype];
      e := new Entity();
      e.etype := p.etype;
      e.AddPrefabFields(p);
      e.AddPrefabTables(p);
      assert e.View().fields == GenFields(p);
      assert e.View().tables == GenTables(p);
    }

    /** First loop of Gen: one field per prefab field whose type has a null
        default. */
    method AddPrefabFields(p: EntityPrefab)
      requires PrefabWellFormed(p)
      requires Valid() && fields == map[] && tables == map[]
      requires fieldCache == null && tableCache == null
      modifies this
      ensures Valid() && (forall n :: n in fields ==> fresh(fields[n]))
      ensures fieldCache == null && tableCache == null && tables == map[]
      ensures id == old(id) && etype == old(etype) && activated == old(activated)
      ensures fields.Keys == GenFields(p).Keys
      ensures forall n :: n in fields ==> fields[n].value == GenFields(p)[n]
    {
      var rest := p.fields.Keys;
      while rest != {}
        invariant rest <= p.fields.Keys
        invariant Valid() && (forall n :: n in fields ==> fresh(fields[n]))
        invariant fieldCache == null && tableCache == null && tables == map[]
        invariant id == old(id) && etype == old(etype) && activated == old(activated)
        invariant forall n :: n in fields <==> n in p.fields && n !in rest && NullOf(p.fields[n].ftype).Some?
        invariant forall n :: n in fields ==> Some(fields[n].value) == NullOf(p.fields[n].ftype)
        decreases rest
      {
        var n :| n in rest;
        var fp := p.fields[n];
        var d := NullOf(fp.ftype);
        if d.Some? {
          var _, _ := CreateField(fp.name, d.value);
        }
        rest := rest - {n};
      }
    }

    /** Second loop of Gen: one empty table per prefab table with a key type. */
    method AddPrefabTables(p: EntityPrefab)
      requires PrefabWellFormed(p)
      requires Valid() && tables == map[]
      requires fieldCache == null && tableCache == null
      modifies this
      ensures Valid() && (forall n :: n in tables ==> fresh(tables[n]))
      ensures fieldCache == null && tableCache == null && fields == old(fields)
      ensures id == old(id) && etype == old(etype) && activated == old(activated)
      ensures forall n :: n in tables <==> n in GenTables(p)
      ensures forall n :: n in tables ==> tables[n].View() == GenTables(p)[n]
    {
      var rest := p.tables.Keys;
      while rest != {}
        invariant rest <= p.tables.Keys
        invariant Valid() && (forall n :: n in tables ==> fresh(tables[n]))
        invariant fieldCache == null && tableCache == null && fields == old(fields)
        invariant id == old(id) && etype == old(etype) && activated == old(activated)
        invariant forall n :: n in tables <==> n in p.tables && n !in rest && IsKeyType(p.tables[n].keyType)
        invariant forall n :: n in tables ==> tables[n].rows == map[] && tables[n].keyType == p.tables[n].keyType
        decreases rest
      {
        var n :| n in rest;
        var tp := p.tables[n];
        var _, _ := CreateTable(tp.name, tp.keyType);
        rest := rest - {n};
      }
    }
  }
}
