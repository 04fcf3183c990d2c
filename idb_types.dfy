/** Values the cursor engine handles: keys, serialized values, the decoded rows of
    the cursor's query, cursor directions, error codes and the calls the cursor
    makes on its object store. Keys and serialized values are opaque: the cursor
    only ever compares keys for equality and passes values through. */
module IDBTypes {

  datatype Option<+T> = None | Some(value: T)

  /** An IndexedDB key (number, string or date in the source), compared by equality. */
  type IDBKey(==)

  /** A structured-clone value in its wire form. */
  type SerializedScriptValue(==)

  /** The row id used when the cursor is not positioned on a row. */
  const InvalidId: int := -1

  /** The four cursor directions. */
  datatype Direction = Next | NextNoDuplicate | Prev | PrevNoDuplicate
  {
    /** The directions that collapse runs of equal keys. */
    predicate IsNoDuplicate() {
      this == NextNoDuplicate || this == PrevNoDuplicate
    }
  }

  /** The numeric code `direction()` hands to script (an unsigned short). */
  function DirectionCode(d: Direction): (c: nat)
    ensures c < 4
    ensures DirectionFromCode(c) == Some(d)
  {
    match d
    case Next => 0
    case NextNoDuplicate => 1
    case Prev => 2
    case PrevNoDuplicate => 3
  }

  /** The direction a numeric code stands for, if any. */
  function DirectionFromCode(c: nat): (d: Option<Direction>)
    ensures d.Some? <==> c < 4
  {
    if c == 0 then Some(Next)
    else if c == 1 then Some(NextNoDuplicate)
    else if c == 2 then Some(Prev)
    else if c == 3 then Some(PrevNoDuplicate)
    else None
  }

  /** The exception codes this component raises. */
  datatype ExceptionCode = NotAllowedErr

  /** A value, or the exception code that stands in for it. */
  datatype Result<+T> = Ok(value: T) | Err(error: ExceptionCode)

  /** One decoded result row of the cursor's query: column 0 is the row id, column 1
      the key, column 4 the serialized value (read only by value cursors) and column 5
      the index's referenced key, NULL for object-store rows. */
  datatype Row = Row(id: int, key: IDBKey, blob: SerializedScriptValue, indexKey: Option<IDBKey>)

  /** The live row ids of the two backing tables at one moment. */
  datatype Store = Store(indexData: set<int>, objectStoreData: set<int>)

  /** What `value()` returns: either the serialized value or the index key, each
      possibly null. */
  datatype IDBAny = SerializedValueAny(serialized: Option<SerializedScriptValue>) | KeyAny(key: Option<IDBKey>)

  /** The put modes of the object store interface that the cursor uses. */
  datatype PutMode = CursorUpdate

  /** A call the cursor makes on its object store. */
  datatype StoreCall =
    | PutCall(value: SerializedScriptValue, key: Option<IDBKey>, mode: PutMode)
    | DeleteCall(key: Option<IDBKey>)

  /** What the advance reports through its callbacks: the null value when the cursor
      is exhausted, the cursor itself when it is positioned on a new row. */
  datatype Report = ReportedNull | ReportedCursor
}
