/** The cursor object itself: the fields the source updates in place, the advance
    loop over its query, and the entry points that schedule an advance or pass a
    write to the object store. The methods that change the cursor's fields or the
    object store's log are proved against the functions of CursorState that
    specify them. */
module CursorBackend {
  import opened IDBTypes
  import opened CursorState

  /** The cursor's object store, reduced to the calls it receives. */
  class ObjectStore {
    var calls: seq<StoreCall>

    constructor ()
      ensures calls == []
    {
      calls := [];
    }

    method Put(value: SerializedScriptValue, key: Option<IDBKey>, mode: PutMode)
      modifies this
      ensures calls == old(calls) + [PutCall(value, key, mode)]
    {
      calls := calls + [PutCall(value, key, mode)];
    }

    method DeleteFunction(key: Option<IDBKey>)
      modifies this
      ensures calls == old(calls) + [DeleteCall(key)]
    {
      calls := calls + [DeleteCall(key)];
    }
  }

  /** A scheduled run of the advance loop, as handed to the transaction. */
  datatype ContinueTask = ContinueTask(target: Option<IDBKey>)

  class IDBCursorBackendImpl {
    const direction: Direction
    const isSerializedScriptValueCursor: bool
    const objectStore: ObjectStore
    var query: Option<RowSource>
    var currentId: int
    var currentKey: Option<IDBKey>
    var currentSerializedScriptValue: Option<SerializedScriptValue>
    var currentIDBKeyValue: Option<IDBKey>

    /** The cursor's fields as one value. */
    function State(): CursorFields
      reads this
    {
      CursorFields(direction, isSerializedScriptValueCursor, query, currentId, currentKey,
                  currentSerializedScriptValue, currentIDBKeyValue)
    }

    /** The cursor is positioned on a row of its query or exhausted. */
    ghost predicate Valid()
      reads this
    {
      Consistent(State())
    }

    /** Builds the cursor over a query already stepped onto its first row and loads
        that row. */
    constructor (rows: seq<Row>, direction: Direction, isSerializedScriptValueCursor: bool, objectStore: ObjectStore)
      requires |rows| > 0
      ensures Valid()
      ensures State() == Open(direction, isSerializedScriptValueCursor, rows)
      ensures this.objectStore == objectStore
    {
      this.direction := direction;
      this.isSerializedScriptValueCursor := isSerializedScriptValueCursor;
      this.objectStore := objectStore;
      query := Some(RowSource(rows, 0));
      currentId := InvalidId;
      currentKey := None;
      currentSerializedScriptValue := None;
      currentIDBKeyValue := None;
      new;
      LoadCurrentRow();
    }

    /** Copies the row the query is on into the current-row fields. */
    method LoadCurrentRow()
      requires query.Some? && query.value.at < |query.value.rows|
      modifies this
      ensures State() == LoadRow(old(State()), old(CurrentRow(State())))
    {
      var row := query.value.rows[query.value.at];
      currentId := row.id;
      currentKey := Some(row.key);
      if isSerializedScriptValueCursor {
        currentSerializedScriptValue := Some(row.blob);
      }
      currentIDBKeyValue := row.indexKey;
    }

    /** Asks the transaction to run the advance later; `accepted` is the
        transaction's answer. NOT_ALLOWED_ERR exactly when it refuses. The cursor
        itself is not touched here. */
    method ContinueFunction(key: Option<IDBKey>, accepted: bool) returns (ec: Option<ExceptionCode>, task: Option<ContinueTask>)
      ensures ec.Some? <==> !accepted
      ensures ec.Some? ==> ec.value == NotAllowedErr
      ensures task.Some? <==> accepted
      ensures task.Some? ==> task.value.target == key
    {
      if accepted {
        ec, task := None, Some(ContinueTask(key));
      } else {
        ec, task := Some(NotAllowedErr), None;
      }
    }

    /** The scheduled advance: steps the query until a row survives the liveness,
        target-key and duplicate filters, or releases the query when it runs out. */
    method ContinueFunctionInternal(target: Option<IDBKey>, store: Store) returns (report: Report)
      requires Valid()
      modifies this
      ensures Valid()
      ensures Advanced(State(), report) == Advance(old(State()), target, store)
    {
      while true
        invariant Valid()
        invariant Advance(State(), target, store) == Advance(old(State()), target, store)
        decreases Remaining(State())
      {
        if query.None? || query.value.at + 1 >= |query.value.rows| {
          query := None;
          currentId := InvalidId;
          currentKey := None;
          currentSerializedScriptValue := None;
          currentIDBKeyValue := None;
          return ReportedNull;
        }
        query := Some(query.value.(at := query.value.at + 1));
        var oldKey := currentKey;
        LoadCurrentRow();
        if !CurrentRowExists(State(), store) {
          continue;
        }
        if target.Some? && currentKey != target {
          continue;
        }
        if direction == Next || direction == Prev {
          break;
        }
        if currentKey != oldKey {
          break;
        }
      }
      report := ReportedCursor;
    }

    /** Runs a task that ContinueFunction handed to the transaction: the advance
        with the target key the task carries. */
    method RunTask(task: ContinueTask, store: Store) returns (report: Report)
      requires Valid()
      modifies this
      ensures Valid()
      ensures Advanced(State(), report) == Advance(old(State()), task.target, store)
    {
      report := ContinueFunctionInternal(task.target, store);
    }

    /** update: writes `value` through the object store at the cursor's natural key,
        unless the guard refuses with NOT_ALLOWED_ERR. */
    method Update(value: SerializedScriptValue) returns (ec: Option<ExceptionCode>)
      modifies objectStore
      ensures unchanged(this)
      ensures ec == match MutationTarget(State()) case Ok(_) => None case Err(e) => Some(e)
      ensures objectStore.calls == old(objectStore.calls) +
                match MutationTarget(State())
                case Ok(k) => [PutCall(value, k, CursorUpdate)]
                case Err(_) => []
    {
      var target := MutationTarget(State());
      if target.Err? {
        return Some(target.error);
      }
      objectStore.Put(value, target.value, CursorUpdate);
      ec := None;
    }

    /** deleteFunction: deletes the cursor's natural key through the object store,
        unless the guard refuses with NOT_ALLOWED_ERR. The cursor stays where it is. */
    method DeleteFunction() returns (ec: Option<ExceptionCode>)
      modifies objectStore
      ensures unchanged(this)
      ensures ec == match MutationTarget(State()) case Ok(_) => None case Err(e) => Some(e)
      ensures objectStore.calls == old(objectStore.calls) +
                match MutationTarget(State())
                case Ok(k) => [DeleteCall(k)]
                case Err(_) => []
    {
      var target := MutationTarget(State());
      if target.Err? {
        return Some(target.error);
      }
      objectStore.DeleteFunction(target.value);
      ec := None;
    }
  }
}
