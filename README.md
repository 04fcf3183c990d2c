# IndexedDB cursor engine (WebCore `IDBCursorBackendImpl`)

This project models the cursor that WebCore's IndexedDB backend hands out for an
object store or an index, and proves properties of that model in Dafny.

The cursor holds a "current row": a row id, a key, an optional serialized value
and an optional index key. It reads rows from a query that was already stepped
onto its first row, in key order, in one of four directions: NEXT,
NEXT_NO_DUPLICATE, PREV or PREV_NO_DUPLICATE.

An advance (`continueFunctionInternal`) steps the query until a row passes three
filters, applied in this order:

1. The row must still exist in its backing table: `IndexData` when an index key
   was loaded, else `ObjectStoreData`.
2. If a target key was supplied, the row's key must equal it.
3. In the no-duplicate directions, the row's key must differ from `oldKey`.
   `oldKey` is the key of the row loaded just before, even if that row was
   skipped.

When the query yields no more rows, the cursor releases it, clears every
current-row field, sets the id to the invalid id and reports null. The cursor
can also send an update or a delete of its current row to its object store. Both
are refused with `NOT_ALLOWED_ERR` when there is no query, when the id is invalid,
or when the cursor is key-only.

Files:

- `idb_types.dfy` (module `IDBTypes`): the values involved.
  - Keys and serialized values are opaque types compared by equality.
  - Rows come already decoded.
  - `Store` is the set of live ids in each of the two tables.
  - Also: directions and their numeric codes, the calls the cursor makes on the
    object store, and what an advance reports.
- `cursor_state.dfy` (module `CursorState`): the cursor's fields as one value
  (`CursorFields`).
  - `Consistent` states the two states a cursor can be in: Positioned or
    Exhausted.
  - One function specifies each operation: `LoadRow`, `CurrentRowExists`,
    `Advance`, the accessors `Key`, `Value` and `DirectionOf`, and
    `MutationTarget`, the guard and key choice shared by `update` and
    `deleteFunction`.
- `cursor_properties.dfy` (module `CursorProperties`): lemmas about those
  functions.
  - The main lemma says which row an advance lands on: the first row after the
    current one that passes the three filters, judged against the row stream.
  - Other lemmas cover exhaustion, an absent target key, the duplicate quirk,
    the mutation guard, and three worked scenarios.
- `cursor_backend.dfy` (module `CursorBackend`): the class
  `IDBCursorBackendImpl`.
  - It has the fields the core reads and writes. Three fields of the source are
    not fields of the class: `m_database` became the `Store` parameter of the
    advance, `m_keyRange` is left out, and `m_transaction` became the
    `accepted` boolean of `ContinueFunction`.
  - `loadCurrentRow` and the advance are methods that update those fields. The
    advance is a `while true` loop that consumes one row per iteration.
  - `LoadCurrentRow`, `ContinueFunctionInternal`, `RunTask`, `Update` and
    `DeleteFunction` are proved against functions in `CursorState`. The
    datatype `CursorFields` holds the cursor's fields as one value.
  - The object store is a class that records the calls it receives.

Collaborators that the source calls are modelled as follows:

- The SQLite statement is a sequence of rows plus the position it is on. After the
  last row, `step()` yields no row.
- The liveness check looks the id up in a `Store` value given to the advance.
  Within one advance the store does not change.
- The transaction's `scheduleTask` becomes a boolean parameter: whether the
  transaction accepted the task. An accepted schedule returns a `ContinueTask`
  carrying the target key, and `RunTask` runs it: it calls
  `ContinueFunctionInternal` with `task.target`.
- The callbacks become the `Report` value that the advance returns.

Assumptions about constants that are defined in headers outside this model
(IDBCursorBackendImpl.h and IDBCursor.h are not part of this model):

- `InvalidId` is -1.
- The direction codes are NEXT = 0, NEXT_NO_DUPLICATE = 1, PREV = 2 and
  PREV_NO_DUPLICATE = 3.

Three details of the code that the model keeps as written:

- A no-duplicate cursor is meant to report each key once. The code only compares
  each row's key with `oldKey`, the key of the row loaded just before it
  (IDBCursorBackendImpl.cpp:130,144).
  - `NoDuplicateAdvanceChangesKey` proves that a reported row has a new key
    when equal keys stand next to each other in the stream, as they do in a
    stream ordered by key.
  - `DuplicateCheckSeesSkippedRow` shows a stream without that condition where
    the same key is reported twice: keys A, B, A, with the B row deleted. A
    query ordered by key cannot produce this stream.
  - In a key-ordered stream, a key whose first row was deleted is skipped
    entirely: the deleted row's key becomes `oldKey` for the next row, so every
    later row of that key fails the duplicate check. `DeletedFirstRowHidesKey`
    shows this for keys a, b, b with the first b deleted: the advance ends
    exhausted without reporting b. `DeletedFirstRowHidesTarget` shows the same
    for a target key: continuing to b on a key-only index cursor ends exhausted,
    although a live b row remains.
- A storage error does not fail the advance:
  - any `step()` result other than a row ends the advance as exhaustion
    (IDBCursorBackendImpl.cpp:120);
  - a liveness lookup that yields no row skips the row
    (IDBCursorBackendImpl.cpp:106-110,134-135).

  The model has no storage errors, so it keeps exactly these two outcomes.
- The duplicate check compares column 1, `m_currentKey`
  (IDBCursorBackendImpl.cpp:168,144), not the referenced key in column 5. The
  model compares the same field.

## Model

| member | source | states |
|---|---|---|
| `IDBTypes.DirectionCode` | Source/WebCore/storage/IDBCursorBackendImpl.cpp:64-67 | a direction's code is below 4 and decodes back to that direction |
| `CursorState.DirectionOf` | Source/WebCore/storage/IDBCursorBackendImpl.cpp:64-67 | `direction()` returns a code below 4 that stands for the cursor's own direction |
| `CursorState.Key` | Source/WebCore/storage/IDBCursorBackendImpl.cpp:69-72 | on a consistent cursor the key is non-null exactly while a query is held, and then it is the key of the row the query is on |
| `CursorState.Value` | Source/WebCore/storage/IDBCursorBackendImpl.cpp:74-79 | a serialized-value cursor returns a serialized value and a key-only cursor returns a key, never both. While positioned, that is the current row's value or index key. Once exhausted, it is null |
| `CursorState.Open` | Source/WebCore/storage/IDBCursorBackendImpl.cpp:48-58 | construction over a query on its first row gives a Positioned state on row 0 with that row loaded and the given direction and cursor kind |
| `CursorState.LoadRow` | Source/WebCore/storage/IDBCursorBackendImpl.cpp:163-173 | id, key and index key come from the row on every load. The serialized value comes from the row on a value cursor and is left as it was on a key-only cursor. Direction, cursor kind and query are untouched |
| `CursorState.Exhaust` | Source/WebCore/storage/IDBCursorBackendImpl.cpp:120-127 | exhaustion releases the query and leaves an Exhausted, consistent state with the same direction and cursor kind |
| `CursorState.CurrentRowExists` | Source/WebCore/storage/IDBCursorBackendImpl.cpp:101-111 | on a positioned cursor the liveness answer is whether the current row is live: in IndexData if it has an index key, else in ObjectStoreData |
| `CursorState.Advance` | Source/WebCore/storage/IDBCursorBackendImpl.cpp:115-149 | the advance terminates (it consumes one row per step). It reports null iff the query is released, and then every field is cleared. A reported row is live and carries the target key if one was given. It lies strictly after the old position in the same stream. Consistency is preserved |
| `CursorState.MutationTarget` | Source/WebCore/storage/IDBCursorBackendImpl.cpp:83-88 | NOT_ALLOWED_ERR iff there is no query, the id is InvalidId or the cursor is key-only. Otherwise, on a consistent cursor, the key is the current row's index key if it has one, else its key |
| `CursorProperties.AdvanceFindsFirstAccepted` | Source/WebCore/storage/IDBCursorBackendImpl.cpp:119-146 | from a positioned cursor, the advance reports the cursor iff some later row passes the liveness, target and duplicate filters, and then it lands on the first such row with that row loaded. The duplicate filter compares with the row just before in the stream. Otherwise it reports null |
| `CursorProperties.AbsentTargetExhausts` | Source/WebCore/storage/IDBCursorBackendImpl.cpp:137-139 | a target key that no remaining row carries makes the advance run to the end and end exhausted |
| `CursorProperties.ExhaustedAdvanceIsIdempotent` | Source/WebCore/storage/IDBCursorBackendImpl.cpp:120-127 | advancing an exhausted cursor reports null and leaves the state unchanged |
| `CursorProperties.AdvanceAfterExhaustion` | Source/WebCore/storage/IDBCursorBackendImpl.cpp:120-127 | after one null report, any later advance, with any target and any liveness, reports null again with the same state |
| `CursorProperties.PlainDirectionAcceptsFirstLiveMatch` | Source/WebCore/storage/IDBCursorBackendImpl.cpp:141-143 | in NEXT or PREV the advance lands on the first later row that is live and matches the target; equal keys are not collapsed |
| `CursorProperties.NoDuplicateAdvanceChangesKey` | Source/WebCore/storage/IDBCursorBackendImpl.cpp:130-145 | in a no-duplicate direction over a stream whose equal keys are contiguous, a reported row's key differs from the previous current key |
| `CursorProperties.DuplicateCheckSeesSkippedRow` | Source/WebCore/storage/IDBCursorBackendImpl.cpp:130-145 | with keys A, B, A and the B row deleted, a no-duplicate cursor on the first A reports the second A. The comparison is with the skipped row's key, not with the last reported key |
| `CursorProperties.DeletedFirstRowHidesKey` | Source/WebCore/storage/IDBCursorBackendImpl.cpp:130-145 | over the key-ordered stream a, b, b with the first b deleted, a no-duplicate cursor on a never reports b: the deleted row's key becomes `oldKey`, the live b row is skipped as a duplicate, and the advance reports null |
| `CursorProperties.DeletedFirstRowHidesTarget` | Source/WebCore/storage/IDBCursorBackendImpl.cpp:130-145 | on a key-only index cursor in NEXT_NO_DUPLICATE over index keys a, b, b with the first b deleted, continuing to target b reports null, although a live b row remains |
| `CursorProperties.NextWalksEveryRow` | Source/WebCore/storage/IDBCursorBackendImpl.cpp:119-148 | over three live rows in NEXT, the cursor opens on the first key, two advances give the second and third keys, and a third advance reports null with a null key |
| `CursorProperties.NoDuplicateCollapsesRun` | Source/WebCore/storage/IDBCursorBackendImpl.cpp:119-148 | an index cursor over index keys A, A, B in NEXT_NO_DUPLICATE opens on A. One advance skips the second A and lands on B, with B's referenced key as its value. The next advance reports null |
| `CursorProperties.MutationAllowedExactlyWhenPositioned` | Source/WebCore/storage/IDBCursorBackendImpl.cpp:153-158 | over a stream of valid ids, update and delete are allowed exactly on a positioned value cursor, and they address the current row's natural key |
| `CursorProperties.MutationRejectedAfterExhaustion` | Source/WebCore/storage/IDBCursorBackendImpl.cpp:83-86 | after an advance reports null, the mutation guard answers NOT_ALLOWED_ERR |
| `CursorBackend.IDBCursorBackendImpl.constructor` | Source/WebCore/storage/IDBCursorBackendImpl.cpp:48-58 | the new cursor's fields are the `Open` state, so it is Positioned on the first row, and it keeps the given object store |
| `CursorBackend.IDBCursorBackendImpl.LoadCurrentRow` | Source/WebCore/storage/IDBCursorBackendImpl.cpp:163-173 | the fields become `LoadRow` of the old fields and the row the query is on |
| `CursorBackend.IDBCursorBackendImpl.ContinueFunction` | Source/WebCore/storage/IDBCursorBackendImpl.cpp:92-99 | NOT_ALLOWED_ERR iff the transaction refuses the task. Otherwise it hands over a task carrying the target key. The cursor's state is not touched |
| `CursorBackend.IDBCursorBackendImpl.ContinueFunctionInternal` | Source/WebCore/storage/IDBCursorBackendImpl.cpp:115-149 | the loop ends, and the new fields and the report are exactly `Advance` of the old fields. The cursor stays Positioned or Exhausted |
| `CursorBackend.IDBCursorBackendImpl.RunTask` | Source/WebCore/storage/IDBCursorBackendImpl.cpp:97 | running a scheduled task performs exactly `Advance` of the old fields with the task's target key, and the cursor stays Positioned or Exhausted |
| `CursorBackend.IDBCursorBackendImpl.Update` | Source/WebCore/storage/IDBCursorBackendImpl.cpp:81-90 | if the guard refuses, the result is NOT_ALLOWED_ERR and no call reaches the object store. Otherwise exactly one put, in cursor-update mode, at the resolved key. The cursor is unchanged |
| `CursorBackend.IDBCursorBackendImpl.DeleteFunction` | Source/WebCore/storage/IDBCursorBackendImpl.cpp:151-160 | if the guard refuses, the result is NOT_ALLOWED_ERR and no call reaches the object store. Otherwise exactly one delete at the resolved key. The cursor stays on the row |
| `CursorBackend.ObjectStore.Put` | Source/WebCore/storage/IDBCursorBackendImpl.cpp:89 | the object store records the put call with its value, key and mode |
| `CursorBackend.ObjectStore.DeleteFunction` | Source/WebCore/storage/IDBCursorBackendImpl.cpp:159 | the object store records the delete call with its key |

## Left out

- SQLite is not modelled: statement preparation, the SQL text, binding and
  column decoding (`getColumnInt64`, `IDBKey::fromQuery`, `createFromWire`).
  Rows arrive already decoded.
- Key ordering is not modelled: keys are compared only by equality. The order of
  the rows, ascending for NEXT and descending for PREV, is the query's
  responsibility, so no lemma here states it.
- Storage errors are not modelled. They cannot occur in this row source:
  `prepare` never fails, and `step()` only answers "row" or "no row".
- The transaction's task queue, the cross-thread task objects, `RefPtr`
  reference counting and `ScriptExecutionContext` are left out.
  - Scheduling is a boolean answer.
  - The queued task is the `ContinueTask` value; the transaction later runs
    `ContinueFunctionInternal` directly.
- `IDBCallbacks` delivery is replaced by the returned `Report`.
- The object store's own `put` and `deleteFunction` are left out; the object
  store only records each call.
  - `Update`: states `ec` as None after a call that passes the guard. In the
    source the object store may still set `ec` itself, and its outcome is not
    modelled.
  - `DeleteFunction`: the same as `Update`: any `ec` set by the object store is
    not modelled.
- The callbacks object passed to `update` and `deleteFunction` is dropped.
- Concurrent writes to the backing tables are only seen through the `Store`
  value given to each advance. Writes during one advance are not modelled,
  because the transaction runs one task at a time.
- `m_keyRange` is not modelled: the cursor stores it but never reads it; the
  query enforces the range.
- Also left out: `database()`, the destructor, the `ENABLE(INDEXED_DATABASE)`
  guard and the `ASSERT` on statement preparation.
- `m_currentId` has no defined value before the first `loadCurrentRow` in the
  source. The model sets it to `InvalidId`, which the load then overwrites.
