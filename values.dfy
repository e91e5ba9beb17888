/** The values the entity engine stores: entity ids, tagged field and column
    values, table primary keys and the declared type of a field or key. */
module Values {

  datatype Option<+T> = None | Some(value: T)

  /** Composite entity id: a unique part and the origin, which names the
      node (shard) that owns the entity. Equality is structural. */
  datatype Nuid = Nuid(unique: int, origin: int)

  /** The "no entity" sentinel (Nuid.Empty). */
  const EmptyId: Nuid := Nuid(0, 0)

  /** A value held by a field, a table column or a delta list. `Null` is a
      null reference (a string or list argument that is null); floats are
      opaque bit patterns compared only for equality. */
  datatype Value =
    | Null
    | Bool(b: bool)
    | Int(i: int)
    | Long(l: int)
    | Float(bits: bv32)
    | Str(s: string)
    | Id(n: Nuid)
    | List(items: seq<Value>)

  /** One table row: an ordered sequence of column values (an NList). */
  type Row = seq<Value>

  /** The declared type of a field or of a table's primary key (VarType). */
  datatype VarType = TNone | TBool | TInt | TLong | TFloat | TString | TNuid | TList

  /** A table primary key: one of the five key types a table accepts. */
  datatype Key = KBool(b: bool) | KInt(i: int) | KLong(l: int) | KString(s: string) | KId(n: Nuid)

  /** The five types a table may be keyed by. */
  predicate IsKeyType(t: VarType) {
    t == TBool || t == TInt || t == TLong || t == TString || t == TNuid
  }

  /** The type of a key, i.e. the TPrimaryKey of the Table<TPrimaryKey> it addresses. */
  function KeyType(k: Key): (t: VarType)
    ensures IsKeyType(t)
  {
    match k
    case KBool(_) => TBool
    case KInt(_) => TInt
    case KLong(_) => TLong
    case KString(_) => TString
    case KId(_) => TNuid
  }

  /** A key as it is added to a delta list or a key listing. */
  function KeyValue(k: Key): (v: Value)
    ensures v != Null
  {
    match k
    case KBool(b) => Bool(b)
    case KInt(i) => Int(i)
    case KLong(l) => Long(l)
    case KString(s) => Str(s)
    case KId(n) => Id(n)
  }

  lemma KeyValueInjective(k1: Key, k2: Key)
    requires KeyValue(k1) == KeyValue(k2)
    ensures k1 == k2
  {
  }

  /** The null default a freshly generated field of type `t` holds
      (Global.NULL_BOOL, NULL_INT, NULL_FLOAT, NULL_LONG, NULL_STRING,
      Nuid.Empty, NList.Empty); None for a type no field is created for. */
  function NullOf(t: VarType): Option<Value> {
    match t
    case TBool => Some(Bool(false))
    case TInt => Some(Int(0))
    case TFloat => Some(Float(0))
    case TLong => Some(Long(0))
    case TString => Some(Str(""))
    case TNuid => Some(Id(EmptyId))
    case TList => Some(List([]))
    case TNone => None
  }

  /** Column `col` of a row (NList.Get); None past the end of the row. */
  function ColAt(row: Row, col: int): (r: Option<Value>)
    ensures r.Some? <==> 0 <= col < |row|
    ensures r.Some? ==> r.value == row[col]
  {
    if 0 <= col < |row| then Some(row[col]) else None
  }
}
