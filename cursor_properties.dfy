/** What one advance of the cursor amounts to, stated against the row stream
    rather than against the loop: the accepted row is the first one after the
    current row that passes the three filters, where the duplicate filter looks at
    the row loaded just before the candidate, skipped or not. */
module CursorProperties {
  import opened IDBTypes
  import opened CursorState

  /** Whether row `j` of the stream passes the filters of an advance: it is live, it
      carries the target key when one is given, and in a no-duplicate direction its
      key differs from the key of row `j - 1`, the row loaded before it. */
  predicate Accepts(d: Direction, rows: seq<Row>, j: nat, target: Option<IDBKey>, store: Store)
    requires 0 < j < |rows|
  {
    && RowLive(rows[j], store)
    && (target.Some? ==> rows[j].key == target.value)
    && (d.IsNoDuplicate() ==> rows[j].key != rows[j - 1].key)
  }

  /** From a positioned cursor, an advance reports the cursor exactly when some later
      row passes the filters, and then it is positioned on the first such row with
      that row's fields loaded; it reports null exactly when no later row passes. */
  lemma {:induction false} AdvanceFindsFirstAccepted(s: CursorFields, target: Option<IDBKey>, store: Store)
    requires Consistent(s) && s.query.Some?
    ensures var r := Advance(s, target, store);
            var q := s.query.value;
            && (r.report == ReportedCursor ==>
                  && r.state.query == Some(q.(at := r.state.query.value.at))
                  && q.at < r.state.query.value.at < |q.rows|
                  && Accepts(s.direction, q.rows, r.state.query.value.at, target, store)
                  && LoadedFrom(r.state, q.rows[r.state.query.value.at])
                  && (forall i :: q.at < i < r.state.query.value.at ==> !Accepts(s.direction, q.rows, i, target, store)))
            && (r.report == ReportedNull ==>
                  forall i :: q.at < i < |q.rows| ==> !Accepts(s.direction, q.rows, i, target, store))
    decreases Remaining(s)
  {
    var q := s.query.value;
    if q.at + 1 < |q.rows| {
      var loaded := LoadRow(s.(query := Some(q.(at := q.at + 1))), q.rows[q.at + 1]);
      assert Consistent(loaded);
      assert CurrentRowExists(loaded, store) == RowLive(q.rows[q.at + 1], store);
      if !Accepts(s.direction, q.rows, q.at + 1, target, store) {
        assert Advance(s, target, store) == Advance(loaded, target, store);
        AdvanceFindsFirstAccepted(loaded, target, store);
      }
    }
  }

  /** An advance whose target key occurs in no remaining row does not loop: it runs
      to the end of the stream and ends exhausted. */
  lemma AbsentTargetExhausts(s: CursorFields, target: IDBKey, store: Store)
    requires Consistent(s) && s.query.Some?
    requires forall i :: s.query.value.at < i < |s.query.value.rows| ==> s.query.value.rows[i].key != target
    ensures Advance(s, Some(target), store) == Advanced(Exhaust(s), ReportedNull)
  {
  }

  /** Advancing an exhausted cursor re-reports null and leaves it as it is. */
  lemma ExhaustedAdvanceIsIdempotent(s: CursorFields, target: Option<IDBKey>, store: Store)
    requires Consistent(s) && s.query.None?
    ensures Advance(s, target, store) == Advanced(s, ReportedNull)
  {
  }

  /** Once an advance has reported null, every further advance reports null again,
      whatever target and whatever liveness it sees. */
  lemma AdvanceAfterExhaustion(s: CursorFields, t1: Option<IDBKey>, st1: Store, t2: Option<IDBKey>, st2: Store)
    requires Advance(s, t1, st1).report == ReportedNull
    ensures Advance(Advance(s, t1, st1).state, t2, st2) == Advance(s, t1, st1)
  {
  }

  /** In a NEXT or PREV cursor the accepted row is the first later row that is live
      and carries the target key; duplicate keys are not collapsed. */
  lemma PlainDirectionAcceptsFirstLiveMatch(s: CursorFields, target: Option<IDBKey>, store: Store, j: nat)
    requires Consistent(s) && s.query.Some? && !s.direction.IsNoDuplicate()
    requires s.query.value.at < j < |s.query.value.rows|
    requires RowLive(s.query.value.rows[j], store)
    requires target.Some? ==> s.query.value.rows[j].key == target.value
    requires forall i :: s.query.value.at < i < j ==>
               !RowLive(s.query.value.rows[i], store) || (target.Some? && s.query.value.rows[i].key != target.value)
    ensures Advance(s, target, store).report == ReportedCursor
    ensures Advance(s, target, store).state.query == Some(s.query.value.(at := j))
  {
    var q := s.query.value;
    AdvanceFindsFirstAccepted(s, target, store);
    assert Accepts(s.direction, q.rows, j, target, store);
  }

  /** Equal keys stand next to each other in the stream, as they do in any stream
      ordered by key. */
  predicate EqualKeysContiguous(rows: seq<Row>)
  {
    forall i, j, k :: 0 <= i < j < k < |rows| && rows[i].key == rows[k].key ==> rows[j].key == rows[i].key
  }

  /** In a no-duplicate direction over a stream whose equal keys are contiguous, an
      advance that reports the cursor always moves it to a different key. */
  lemma NoDuplicateAdvanceChangesKey(s: CursorFields, target: Option<IDBKey>, store: Store)
    requires Consistent(s) && s.query.Some? && s.direction.IsNoDuplicate()
    requires EqualKeysContiguous(s.query.value.rows)
    requires Advance(s, target, store).report == ReportedCursor
    ensures Key(Advance(s, target, store).state) != Key(s)
  {
    var q := s.query.value;
    var r := Advance(s, target, store);
    AdvanceFindsFirstAccepted(s, target, store);
    var j := r.state.query.value.at;
    assert Accepts(s.direction, q.rows, j, target, store);
    assert q.rows[j].key != q.rows[j - 1].key;
    if q.at < j - 1 {
      assert q.rows[q.at].key != q.rows[j].key;
    }
  }

  /** The duplicate filter compares with the row loaded just before, even if that row
      was skipped as deleted: with keys A, B, A and the B row deleted, a no-duplicate
      cursor on the first A moves to the second A. A query ordered by key never
      yields this stream; it shows the comparison, not a reachable outcome. */
  lemma DuplicateCheckSeesSkippedRow(a: IDBKey, b: IDBKey, va: SerializedScriptValue, vb: SerializedScriptValue)
    requires a != b
    ensures var rows := [Row(1, a, va, None), Row(2, b, vb, None), Row(3, a, va, None)];
            var s := Open(NextNoDuplicate, true, rows);
            var r := Advance(s, None, Store({}, {1, 3}));
            && r.report == ReportedCursor
            && Key(r.state) == Key(s) == Some(a)
            && r.state.currentId == 3
  {
  }

  /** The same comparison on a stream ordered by key: when the first row of a key
      was deleted, the key of that deleted row becomes `oldKey` for the next row, so
      every later row of the key is skipped as a duplicate. Over keys a, b, b with
      the first b deleted, a no-duplicate value cursor on a never reports b: its
      advance ends exhausted. */
  lemma DeletedFirstRowHidesKey(a: IDBKey, b: IDBKey, v: SerializedScriptValue)
    requires a != b
    ensures var rows := [Row(1, a, v, None), Row(2, b, v, None), Row(3, b, v, None)];
            && EqualKeysContiguous(rows)
            && Advance(Open(NextNoDuplicate, true, rows), None, Store({}, {1, 3})).report == ReportedNull
  {
  }

  /** The target key is hidden the same way: on a key-only index cursor in
      NEXT_NO_DUPLICATE over index keys a, b, b with the first b deleted, continuing
      to b ends exhausted although a live row with key b remains. */
  lemma DeletedFirstRowHidesTarget(a: IDBKey, b: IDBKey, v: SerializedScriptValue, p1: IDBKey, p2: IDBKey, p3: IDBKey)
    requires a != b
    ensures var rows := [Row(1, a, v, Some(p1)), Row(2, b, v, Some(p2)), Row(3, b, v, Some(p3))];
            && EqualKeysContiguous(rows)
            && RowLive(rows[2], Store({1, 3}, {}))
            && Advance(Open(NextNoDuplicate, false, rows), Some(b), Store({1, 3}, {})).report == ReportedNull
  {
  }

  /** Over keys k1, k2, k3 in NEXT order, all live, the cursor opens on k1, two
      advances give k2 and k3, and a third reports null. */
  lemma NextWalksEveryRow(k1: IDBKey, k2: IDBKey, k3: IDBKey, v: SerializedScriptValue, store: Store)
    requires {1, 2, 3} <= store.objectStoreData
    ensures var rows := [Row(1, k1, v, None), Row(2, k2, v, None), Row(3, k3, v, None)];
            var s0 := Open(Next, true, rows);
            var a1 := Advance(s0, None, store);
            var a2 := Advance(a1.state, None, store);
            var a3 := Advance(a2.state, None, store);
            && Key(s0) == Some(k1)
            && a1.report == ReportedCursor && Key(a1.state) == Some(k2)
            && a2.report == ReportedCursor && Key(a2.state) == Some(k3)
            && a3.report == ReportedNull && Key(a3.state).None?
  {
  }

  /** An index cursor over index keys A, A, B in NEXT_NO_DUPLICATE order opens on the
      first A, its first advance skips the second A and lands on B, and the next
      advance reports null. */
  lemma NoDuplicateCollapsesRun(a: IDBKey, b: IDBKey, p1: IDBKey, p2: IDBKey, p3: IDBKey, v: SerializedScriptValue, store: Store)
    requires a != b
    requires {1, 2, 3} <= store.indexData
    ensures var rows := [Row(1, a, v, Some(p1)), Row(2, a, v, Some(p2)), Row(3, b, v, Some(p3))];
            var s0 := Open(NextNoDuplicate, false, rows);
            var a1 := Advance(s0, None, store);
            var a2 := Advance(a1.state, None, store);
            && Key(s0) == Some(a)
            && a1.report == ReportedCursor && Key(a1.state) == Some(b) && Value(a1.state) == KeyAny(Some(p3))
            && a2.report == ReportedNull
  {
  }

  /** All row ids of the stream are valid ones, as SQLite row ids of stored records are. */
  predicate ValidIds(rows: seq<Row>)
  {
    forall i :: 0 <= i < |rows| ==> rows[i].id != InvalidId
  }

  /** Over a stream of valid ids, update and deleteFunction are allowed exactly on a
      positioned serialized-value cursor, and then address the current row's natural
      key; on an exhausted cursor they always fail with NOT_ALLOWED_ERR. */
  lemma MutationAllowedExactlyWhenPositioned(s: CursorFields)
    requires Consistent(s)
    requires s.query.Some? ==> ValidIds(s.query.value.rows)
    ensures MutationTarget(s).Ok? <==> s.query.Some? && s.isSerializedScriptValueCursor
    ensures MutationTarget(s).Ok? ==> MutationTarget(s).value == Some(NaturalKey(CurrentRow(s)))
  {
  }

  /** Advancing keeps the cursor's guard honest: after an advance that reports null,
      update and deleteFunction fail with NOT_ALLOWED_ERR. */
  lemma MutationRejectedAfterExhaustion(s: CursorFields, target: Option<IDBKey>, store: Store)
    requires Advance(s, target, store).report == ReportedNull
    ensures MutationTarget(Advance(s, target, store).state) == Err(NotAllowedErr)
  {
  }
}
