/** The schema registry (Prefabs): for every entity type, its fields, its
    tables, its ancestor chain and its priority. It is fixed and read-only. */
module Prefabs {
  import opened Values

  datatype FieldPrefab = FieldPrefab(name: string, ftype: VarType, save: bool, sync: bool)

  datatype TablePrefab = TablePrefab(name: string, keyType: VarType, save: bool, sync: bool)

  datatype EntityPrefab = EntityPrefab(
    etype: string,
    fields: map<string, FieldPrefab>,
    tables: map<string, TablePrefab>,
    ancestors: seq<string>,
    priority: int)

  /** Entity type name to prefab (Prefabs.GetEntity). */
  type Registry = map<string, EntityPrefab>

  /** A prefab's dictionaries are keyed by the names of their entries. */
  ghost predicate PrefabWellFormed(p: EntityPrefab) {
    && (forall n :: n in p.fields ==> p.fields[n].name == n)
    && (forall n :: n in p.tables ==> p.tables[n].name == n)
  }

  /** Every prefab is registered under its own type name and is well formed. */
  ghost predicate WellFormed(reg: Registry) {
    forall t :: t in reg ==> reg[t].etype == t && PrefabWellFormed(reg[t])
  }
}
