/** The cursor's state as a value, and the specification of each of its operations
    as a function of that value: loading a row, the liveness check, one advance,
    the accessors and the guard of the mutating entry points. The class in
    CursorBackend keeps the same state in fields and is proved against these. */
module CursorState {
  import opened IDBTypes

  /** The cursor's query: the rows it yields, in order, and the row it is on. */
  datatype RowSource = RowSource(rows: seq<Row>, at: nat)

  /** Every field of the cursor. `query` is None once the query has been released. */
  datatype CursorFields = CursorFields(
    direction: Direction,
    isSerializedScriptValueCursor: bool,
    query: Option<RowSource>,
    currentId: int,
    currentKey: Option<IDBKey>,
    currentSerializedScriptValue: Option<SerializedScriptValue>,
    currentIDBKeyValue: Option<IDBKey>)

  /** The state an advance leaves behind and what it reports. */
  datatype Advanced = Advanced(state: CursorFields, report: Report)

  /** The number of rows the query can still be positioned on, counting the current one. */
  function Remaining(s: CursorFields): nat
  {
    match s.query
    case None => 0
    case Some(q) => if q.at < |q.rows| then |q.rows| - q.at else 0
  }

  /** The row the query is positioned on. */
  function CurrentRow(s: CursorFields): Row
    requires s.query.Some? && s.query.value.at < |s.query.value.rows|
  {
    s.query.value.rows[s.query.value.at]
  }

  /** The current-row fields hold what was read from `row`. */
  predicate LoadedFrom(s: CursorFields, row: Row)
  {
    && s.currentId == row.id
    && s.currentKey == Some(row.key)
    && s.currentIDBKeyValue == row.indexKey
    && (s.isSerializedScriptValueCursor ==> s.currentSerializedScriptValue == Some(row.blob))
  }

  /** Every current-* field is null and the id is the invalid one. */
  predicate Cleared(s: CursorFields)
  {
    && s.currentId == InvalidId
    && s.currentKey.None?
    && s.currentSerializedScriptValue.None?
    && s.currentIDBKeyValue.None?
  }

  /** The two states of the cursor. Positioned: the query is on one of its rows and the
      current-* fields hold that row (a key-only cursor never holds a serialized value).
      Exhausted: the query is released and the fields are cleared. */
  predicate Consistent(s: CursorFields)
  {
    match s.query
    case Some(q) =>
      && q.at < |q.rows|
      && LoadedFrom(s, q.rows[q.at])
      && (!s.isSerializedScriptValueCursor ==> s.currentSerializedScriptValue.None?)
    case None => Cleared(s)
  }

  /** loadCurrentRow: reads id, key and index key of `row` on every load, and the
      serialized value only for a serialized-value cursor. */
  function LoadRow(s: CursorFields, row: Row): (r: CursorFields)
    ensures LoadedFrom(r, row)
    ensures !s.isSerializedScriptValueCursor ==> r.currentSerializedScriptValue == s.currentSerializedScriptValue
    ensures r.direction == s.direction && r.isSerializedScriptValueCursor == s.isSerializedScriptValueCursor
    ensures r.query == s.query
  {
    s.(currentId := row.id,
       currentKey := Some(row.key),
       currentSerializedScriptValue :=
         if s.isSerializedScriptValueCursor then Some(row.blob) else s.currentSerializedScriptValue,
       currentIDBKeyValue := row.indexKey)
  }

  /** The state right after construction over a query already stepped onto its first row. */
  function Open(direction: Direction, isSerializedScriptValueCursor: bool, rows: seq<Row>): (r: CursorFields)
    requires |rows| > 0
    ensures Consistent(r)
    ensures r.query == Some(RowSource(rows, 0))
    ensures r.direction == direction && r.isSerializedScriptValueCursor == isSerializedScriptValueCursor
  {
    var blank := CursorFields(direction, isSerializedScriptValueCursor, Some(RowSource(rows, 0)), InvalidId, None, None, None);
    LoadRow(blank, rows[0])
  }

  /** The exhaustion branch of the advance: release the query and clear the fields. */
  function Exhaust(s: CursorFields): (r: CursorFields)
    ensures r.query.None? && Consistent(r)
    ensures r.direction == s.direction && r.isSerializedScriptValueCursor == s.isSerializedScriptValueCursor
  {
    s.(query := None, currentId := InvalidId, currentKey := None,
       currentSerializedScriptValue := None, currentIDBKeyValue := None)
  }

  /** Whether a row is still in its backing table: index rows (those with an index
      key) in IndexData, object-store rows in ObjectStoreData. */
  predicate RowLive(row: Row, store: Store)
  {
    if row.indexKey.Some? then row.id in store.indexData else row.id in store.objectStoreData
  }

  /** currentRowExists: looks the current id up in IndexData when an index key is
      loaded, else in ObjectStoreData. */
  function CurrentRowExists(s: CursorFields, store: Store): (r: bool)
    ensures Consistent(s) && s.query.Some? ==> (r <==> RowLive(CurrentRow(s), store))
  {
    if s.currentIDBKeyValue.Some? then s.currentId in store.indexData
    else s.currentId in store.objectStoreData
  }

  /** continueFunctionInternal: step the query, load the row, and skip it if it was
      deleted, if it is not the target key, or (no-duplicate directions) if its key
      equals the key of the row loaded just before it; report null once the query
      yields no row. */
  function Advance(s: CursorFields, target: Option<IDBKey>, store: Store): (r: Advanced)
    decreases Remaining(s)
    ensures r.state.direction == s.direction
    ensures r.state.isSerializedScriptValueCursor == s.isSerializedScriptValueCursor
    ensures r.report == ReportedNull <==> r.state.query.None?
    ensures r.report == ReportedNull ==> r.state == Exhaust(s)
    ensures r.report == ReportedCursor ==> CurrentRowExists(r.state, store)
    ensures r.report == ReportedCursor && target.Some? ==> r.state.currentKey == target
    ensures r.report == ReportedCursor ==>
              && s.query.Some? && r.state.query.Some?
              && r.state.query.value.rows == s.query.value.rows
              && s.query.value.at < r.state.query.value.at < |s.query.value.rows|
    ensures Consistent(s) ==> Consistent(r.state)
  {
    if s.query.None? || s.query.value.at + 1 >= |s.query.value.rows| then
      Advanced(Exhaust(s), ReportedNull)
    else
      var q := s.query.value;
      var oldKey := s.currentKey;
      var loaded := LoadRow(s.(query := Some(q.(at := q.at + 1))), q.rows[q.at + 1]);
      if !CurrentRowExists(loaded, store) then
        Advance(loaded, target, store)
      else if target.Some? && loaded.currentKey != target then
        Advance(loaded, target, store)
      else if s.direction == Next || s.direction == Prev then
        Advanced(loaded, ReportedCursor)
      else if loaded.currentKey != oldKey then
        Advanced(loaded, ReportedCursor)
      else
        Advance(loaded, target, store)
  }

  /** key(): the current key; null once exhausted. */
  function Key(s: CursorFields): (r: Option<IDBKey>)
    ensures Consistent(s) ==> (r.Some? <==> s.query.Some?)
    ensures Consistent(s) && s.query.Some? ==> r == Some(CurrentRow(s).key)
  {
    s.currentKey
  }

  /** value(): the serialized value for a serialized-value cursor, else the index
      key; never both. */
  function Value(s: CursorFields): (r: IDBAny)
    ensures r.SerializedValueAny? <==> s.isSerializedScriptValueCursor
    ensures Consistent(s) && s.query.Some? ==>
              r == if s.isSerializedScriptValueCursor then SerializedValueAny(Some(CurrentRow(s).blob))
                   else KeyAny(CurrentRow(s).indexKey)
    ensures Consistent(s) && s.query.None? ==> r == SerializedValueAny(None) || r == KeyAny(None)
  {
    if s.isSerializedScriptValueCursor then SerializedValueAny(s.currentSerializedScriptValue)
    else KeyAny(s.currentIDBKeyValue)
  }

  /** direction(): the direction's numeric code. */
  function DirectionOf(s: CursorFields): (r: nat)
    ensures r < 4 && DirectionFromCode(r) == Some(s.direction)
  {
    DirectionCode(s.direction)
  }

  /** The key a cursor-issued write is addressed to: what a row refers to through
      the index when it has an index key, else its own key. */
  function NaturalKey(row: Row): IDBKey
  {
    if row.indexKey.Some? then row.indexKey.value else row.key
  }

  /** The guard and key choice shared by update and deleteFunction: NOT_ALLOWED_ERR
      without a query, without a valid current id or on a key-only cursor; else the
      index key when one is loaded, else the current key. */
  function MutationTarget(s: CursorFields): (r: Result<Option<IDBKey>>)
    ensures r.Err? <==> s.query.None? || s.currentId == InvalidId || !s.isSerializedScriptValueCursor
    ensures r.Err? ==> r.error == NotAllowedErr
    ensures Consistent(s) && r.Ok? ==> r.value == Some(NaturalKey(CurrentRow(s)))
  {
    if s.query.None? || s.currentId == InvalidId || !s.isSerializedScriptValueCursor then
      Err(NotAllowedErr)
    else
      Ok(if s.currentIDBKeyValue.Some? then s.currentIDBKeyValue else s.currentKey)
  }
}
