/** Table<TPrimaryKey>: a keyed row store. The primary key is a tagged
    variant over the five key types, so one class stands for every
    instantiation; `keyType` records which TPrimaryKey a table was made for. */
module Tables {
  import opened Values
  import opened Ordering

  /** What a mutation did: nothing (the source returns false and a null
      result), or the new rows and the delta list it reports. */
  datatype Mutation = Unchanged | Changed(rows: map<Key, Row>, delta: seq<Value>)

  /** The abstract content of one table. */
  datatype TableView = TableView(keyType: VarType, rows: map<Key, Row>)

  /** Insert-or-replace of a whole row (TrySetKeyValue); `value` None is a
      null list. */
  function PutRow(rows: map<Key, Row>, k: Key, value: Option<Row>): (r: Mutation)
    ensures r.Unchanged? <==> value.None?
    ensures r.Changed? ==>
      && r.rows.Keys == rows.Keys + {k}
      && r.rows[k] == value.value
      && (forall k' :: k' in rows && k' != k ==> r.rows[k'] == rows[k'])
      && r.delta == [KeyValue(k), List(value.value)]
  {
    if value.None? then Unchanged
    else Changed(rows[k := value.value], [KeyValue(k), List(value.value)])
  }

  /** Removal of one row (TryDelKey). */
  function DeleteRow(rows: map<Key, Row>, k: Key): (r: Mutation)
    ensures r.Unchanged? <==> k !in rows
    ensures r.Changed? ==>
      && r.rows.Keys == rows.Keys - {k}
      && (forall k' :: k' in r.rows ==> r.rows[k'] == rows[k'])
      && r.delta == [KeyValue(k), List(rows[k])]
  {
    if k !in rows then Unchanged
    else Changed(rows - {k}, [KeyValue(k), List(rows[k])])
  }

  /** Update of one column of one row (TrySetKeyCol). Nothing changes when the
      new value is null, the row is absent, the current column value is null
      or missing, or the new value equals the current one. */
  function SetColumn(rows: map<Key, Row>, k: Key, col: int, v: Value): (r: Mutation)
    ensures r.Unchanged? <==>
      v == Null || k !in rows || ColAt(rows[k], col) in {None, Some(Null), Some(v)}
    ensures r.Changed? ==>
      && r.rows.Keys == rows.Keys
      && 0 <= col < |rows[k]|
      && |r.rows[k]| == |rows[k]|
      && r.rows[k][col] == v
      && (forall c :: 0 <= c < |rows[k]| && c != col ==> r.rows[k][c] == rows[k][c])
      && (forall k' :: k' in rows && k' != k ==> r.rows[k'] == rows[k'])
      && r.delta == [KeyValue(k), Int(col), rows[k][col], v]
  {
    if v == Null || k !in rows then Unchanged
    else
      match ColAt(rows[k], col)
      case None => Unchanged
      case Some(old_value) =>
        if old_value == Null || old_value == v then Unchanged
        else Changed(rows[k := rows[k][col := v]], [KeyValue(k), Int(col), old_value, v])
  }

  /** Deleting a row that was just inserted under a fresh key gives back the
      table as it was. */
  lemma PutThenDelete(rows: map<Key, Row>, k: Key, value: Row)
    requires k !in rows
    ensures PutRow(rows, k, Some(value)).Changed?
    ensures DeleteRow(PutRow(rows, k, Some(value)).rows, k).Changed?
    ensures DeleteRow(PutRow(rows, k, Some(value)).rows, k).rows == rows
    ensures DeleteRow(PutRow(rows, k, Some(value)).rows, k).delta
         == PutRow(rows, k, Some(value)).delta
  {
    var put := PutRow(rows, k, Some(value)).rows;
    assert put - {k} == rows;
  }

  /** Setting a column back to the value it had undoes the change and
      reports the swapped delta. */
  lemma SetColumnUndo(rows: map<Key, Row>, k: Key, col: int, v: Value)
    requires SetColumn(rows, k, col, v).Changed?
    ensures var m := SetColumn(rows, k, col, v);
      && SetColumn(m.rows, k, col, rows[k][col]).Changed?
      && SetColumn(m.rows, k, col, rows[k][col]).rows == rows
      && SetColumn(m.rows, k, col, rows[k][col]).delta == [KeyValue(k), Int(col), v, rows[k][col]]
  {
    var m := SetColumn(rows, k, col, v);
    var back := SetColumn(m.rows, k, col, rows[k][col]).rows;
    assert back[k] == rows[k];
    assert back == rows;
  }

  /** A successful mutation was applied: the new rows and the reported delta
      are the mutation's, otherwise nothing changed and the result is null. */
  ghost predicate Applied(m: Mutation, before: map<Key, Row>, after: map<Key, Row>,
                          ok: bool, result: Option<seq<Value>>)
  {
    && ok == m.Changed?
    && after == (if ok then m.rows else before)
    && result == (if ok then Some(m.delta) else None)
  }

  class Table {
    const name: string
    const keyType: VarType
    var rows: map<Key, Row>

    constructor (name: string, keyType: VarType)
      ensures this.name == name && this.keyType == keyType && rows == map[]
    {
      this.name := name;
      this.keyType := keyType;
      rows := map[];
    }

    function View(): TableView
      reads this
    {
      TableView(keyType, rows)
    }

    /** IsEmpty holds exactly when the key set is empty. */
    predicate IsEmpty()
      reads this
      ensures IsEmpty() <==> rows.Keys == {}
    {
      |rows| == 0
    }

    method Clear()
      modifies this
      ensures rows == map[]
      ensures IsEmpty()
    {
      rows := map[];
    }

    method TrySetKeyValue(k: Key, value: Option<Row>) returns (ok: bool, result: Option<seq<Value>>)
      modifies this
      ensures Applied(PutRow(old(rows), k, value), old(rows), rows, ok, result)
      ensures ok ==> GetKeyValue(k) == value
    {
      result := None;
      if value.None? {
        return false, result;
      }
      result := Some([KeyValue(k), List(value.value)]);
      if k !in rows {
        rows := rows[k := value.value];
      } else {
        rows := rows[k := value.value];
      }
      ok := true;
    }

    method TryDelKey(k: Key) returns (ok: bool, result: Option<seq<Value>>)
      modifies this
      ensures Applied(DeleteRow(old(rows), k), old(rows), rows, ok, result)
      ensures GetKeyValue(k) == None
    {
      result := None;
      if k !in rows {
        return false, result;
      }
      var value := rows[k];
      rows := rows - {k};
      result := Some([KeyValue(k), List(value)]);
      ok := true;
    }

    method TrySetKeyCol(k: Key, col: int, v: Value) returns (ok: bool, result: Option<seq<Value>>)
      modifies this
      ensures Applied(SetColumn(old(rows), k, col, v), old(rows), rows, ok, result)
      ensures ok ==> GetCol(k, col) == Some(v)
    {
      result := None;
      if v == Null {
        return false, result;
      }
      if k !in rows {
        return false, result;
      }
      var row := rows[k];
      var current := ColAt(row, col);
      if current.None? || current.value == Null {
        return false, result;
      }
      if current.value == v {
        return false, result;
      }
      rows := rows[k := row[col := v]];
      result := Some([KeyValue(k), Int(col), current.value, v]);
      ok := true;
    }

    /** GetCol: None (the caller's default(T)) when the key is absent or the
        row has no such column. */
    function GetCol(k: Key, col: int): (r: Option<Value>)
      reads this
      ensures k !in rows ==> r.None?
      ensures r.Some? ==> k in rows && 0 <= col < |rows[k]| && r.value == rows[k][col]
      ensures k in rows && 0 <= col < |rows[k]| ==> r.Some?
    {
      if k !in rows then None else ColAt(rows[k], col)
    }

    /** GetKeyValue: the stored row, or None (null) when the key is absent. */
    function GetKeyValue(k: Key): (r: Option<Row>)
      reads this
      ensures r.None? <==> k !in rows
      ensures r.Some? ==> r.value == rows[k]
    {
      if k !in rows then None else Some(rows[k])
    }

    /** GetPrimaryKeys: every key of the table exactly once. */
    method GetPrimaryKeys() returns (keys: seq<Key>)
      ensures |keys| == |rows|
      ensures forall k :: k in keys <==> k in rows
      ensures Distinct(keys)
    {
      keys := Enumerate(rows.Keys);
    }

    /** GetKeys: the keys as a list of values, each key exactly once. */
    method GetKeys() returns (list: seq<Value>)
      ensures |list| == |rows|
      ensures forall k :: k in rows ==> KeyValue(k) in list
      ensures forall i :: 0 <= i < |list| ==> exists k :: k in rows && list[i] == KeyValue(k)
      ensures Distinct(list)
    {
      var rest := rows.Keys;
      list := [];
      ghost var keys: seq<Key> := [];
      while rest != {}
        invariant rest <= rows.Keys
        invariant |list| == |keys|
        invariant forall i :: 0 <= i < |keys| ==> list[i] == KeyValue(keys[i])
        invariant forall k :: k in keys <==> k in rows && k !in rest
        invariant |keys| + |rest| == |rows.Keys|
        invariant Distinct(keys)
        decreases |rest|
      {
        var k :| k in rest;
        list := list + [KeyValue(k)];
        keys := keys + [k];
        rest := rest - {k};
      }
      forall k | k in rows
        ensures KeyValue(k) in list
      {
        var i :| 0 <= i < |keys| && keys[i] == k;
        assert list[i] == KeyValue(k);
      }
      forall i, j | 0 <= i < j < |list|
        ensures list[i] != list[j]
      {
        if list[i] == list[j] {
          KeyValueInjective(keys[i], keys[j]);
        }
      }
    }
  }
}
