/** Field writes and reads of a node on the hot (Grain) path. The typed
    wrappers (SetFieldBool … SetFieldList, GetFieldBool … GetFieldList)
    differ only in the static type of the value, so one tagged value stands
    for all of them. */
module FieldOps {
  import opened Values
  import opened Prefabs
  import opened Entities
  import opened Pipeline

  /** The field holds a value and a write of `v` would change it. */
  predicate Writable(s: NodeState, id: Nuid, field: string, v: Value) {
    v != Null && id in s.store && field in s.store[id].fields && s.store[id].fields[field] != v
  }

  /** SetField<T>: nothing for a null value, a missing entity, a missing
      field or an unchanged value (Field.TrySet fails); otherwise the field
      takes `v` and a Change callback carries [old, new]. */
  function SetFieldLocal(reg: Registry, s: NodeState, id: Nuid, field: string, v: Value): (r: NodeState)
    ensures Coherent(s) ==> Coherent(r)
    ensures Extends(s, r) && r.activated == s.activated && r.forwarded == s.forwarded && r.saves == s.saves
    ensures r.store.Keys == s.store.Keys
    ensures !Writable(s, id, field, v) ==> r == s
    ensures Writable(s, id, field, v) ==>
      && r.store == s.store[id := s.store[id].(fields := s.store[id].fields[field := v])]
      && r == CallbackField(reg, s.(store := r.store), id, s.store[id].etype, field, Change,
                            [s.store[id].fields[field], v])
  {
    if v == Null then s
    else if id !in s.store then s
    else
      var e := s.store[id];
      if field !in e.fields then s
      else if e.fields[field] == v then s
      else
        var updated := s.(store := s.store[id := e.(fields := e.fields[field := v])]);
        CallbackField(reg, updated, id, e.etype, field, Change, [e.fields[field], v])
  }

  /** SetFieldBool … SetFieldList: handed to the owning node for a foreign
      id, applied here otherwise. */
  function SetField(reg: Registry, s: NodeState, identity: int, id: Nuid, field: string, v: Value): (r: NodeState)
    ensures id.origin != identity ==> r == ForwardTo(s, id.origin, SetFieldOp(id, field, v))
    ensures id.origin == identity ==> r == SetFieldLocal(reg, s, id, field, v)
  {
    if id.origin != identity then ForwardTo(s, id.origin, SetFieldOp(id, field, v))
    else SetFieldLocal(reg, s, id, field, v)
  }

  /** GetField<T>: None (default(T)) when the entity or the field is
      missing; otherwise the stored value. */
  function GetFieldLocal(s: NodeState, id: Nuid, field: string): (r: Option<Value>)
    ensures r.Some? <==> id in s.store && field in s.store[id].fields
    ensures r.Some? ==> r.value == s.store[id].fields[field]
  {
    if id !in s.store then None
    else if field !in s.store[id].fields then None
    else Some(s.store[id].fields[field])
  }

  /** GetFieldBool … GetFieldList: the owning node's reply for a foreign id. */
  function GetField(s: NodeState, identity: int, id: Nuid, field: string, remote: Option<Value>): (r: (NodeState, Option<Value>))
    ensures id.origin != identity ==> r == (ForwardTo(s, id.origin, GetFieldOp(id, field)), remote)
    ensures id.origin == identity ==> r == (s, GetFieldLocal(s, id, field))
  {
    if id.origin != identity then (ForwardTo(s, id.origin, GetFieldOp(id, field)), remote)
    else (s, GetFieldLocal(s, id, field))
  }

  /** A read after a successful write sees the written value; other fields
      and other entities read as before. */
  lemma GetAfterSet(reg: Registry, s: NodeState, id: Nuid, field: string, v: Value, id': Nuid, field': string)
    requires Writable(s, id, field, v)
    ensures GetFieldLocal(SetFieldLocal(reg, s, id, field, v), id, field) == Some(v)
    ensures (id', field') != (id, field) ==>
      GetFieldLocal(SetFieldLocal(reg, s, id, field, v), id', field') == GetFieldLocal(s, id', field')
  {
  }

  /** Writing the same value twice changes nothing the second time: no
      state change, no callback, no message. */
  lemma SetFieldIdempotent(reg: Registry, s: NodeState, id: Nuid, field: string, v: Value)
    ensures var once := SetFieldLocal(reg, s, id, field, v);
      SetFieldLocal(reg, once, id, field, v) == once
  {
    var once := SetFieldLocal(reg, s, id, field, v);
    if Writable(s, id, field, v) {
      assert !Writable(once, id, field, v);
    }
  }

  /** Writing back the previous value restores the entities and reports the
      swapped delta. */
  lemma SetFieldUndo(reg: Registry, s: NodeState, id: Nuid, field: string, v: Value)
    requires Writable(s, id, field, v) && s.store[id].fields[field] != Null
    ensures var once := SetFieldLocal(reg, s, id, field, v);
      var back := SetFieldLocal(reg, once, id, field, s.store[id].fields[field]);
      && back.store == s.store
      && (s.store[id].etype in reg ==>
            back.calls[|once.calls|..] ==
            FieldCalls(Chain(reg[s.store[id].etype].ancestors, s.store[id].etype), id, field, Change,
                       [v, s.store[id].fields[field]]))
  {
    var e := s.store[id];
    var once := SetFieldLocal(reg, s, id, field, v);
    assert Writable(once, id, field, e.fields[field]);
    assert e.(fields := e.fields[field := v]).(fields := e.fields[field := v][field := e.fields[field]]) == e;
  }

  /** Exactly one Change dispatch per type of the chain happens iff the
      write succeeds (for a registered type). */
  lemma CallbackIffWritten(reg: Registry, s: NodeState, id: Nuid, field: string, v: Value)
    requires id in s.store && s.store[id].etype in reg
    ensures var r := SetFieldLocal(reg, s, id, field, v);
      |r.calls| == |s.calls| + (if Writable(s, id, field, v) then |reg[s.store[id].etype].ancestors| + 1 else 0)
  {
  }
}
