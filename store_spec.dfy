/**
 * The table store (`useCSVStore`) as values: the state, and what each action
 * makes of it. `CsvStore` (store.dfy) implements these actions in place.
 */
module StoreSpec {
  import opened Base
  import opened Positions

  /** `maxHistorySize`. */
  const MaxHistorySize: nat := 20

  const FileLoaded: string := "file_loaded"
  const DeleteRowsAction: string := "delete_rows"
  const DeleteColumnsAction: string := "delete_columns"

  datatype Direction = Asc | Desc

  /** `{ columnIndex, direction }`. */
  datatype SortConfig = SortConfig(columnIndex: nat, direction: Direction)

  /** A history entry: a snapshot of the table and the action that took it (the timestamp is left out). */
  datatype Entry = Entry(processedData: seq<seq<string>>, headers: seq<string>, action: string)

  datatype Store = Store(
    rawData: seq<seq<string>>,
    processedData: seq<seq<string>>,
    headers: seq<string>,
    originalHeaders: seq<string>,
    selectedRows: set<nat>,
    selectedColumns: set<nat>,
    sortConfig: Option<SortConfig>,
    history: seq<Entry>,
    historyIndex: int)

  /** Either no history and index -1, or an index into a history of at most 20 entries. */
  predicate HistoryValid(st: Store) {
    (st.history == [] && st.historyIndex == -1)
    || (0 <= st.historyIndex < |st.history| <= MaxHistorySize)
  }

  /** The initial state, which `reset` restores. */
  function Empty(): Store {
    Store([], [], [], [], {}, {}, None, [], -1)
  }

  function SetData(st: Store, rawData: seq<seq<string>>, processedData: seq<seq<string>>,
                   headers: seq<string>, originalHeaders: seq<string>): Store
  {
    Store(rawData, processedData, headers, originalHeaders, {}, {}, None,
          [Entry(processedData, headers, FileLoaded)], 0)
  }

  /** `{lo, ..., hi - 1}`. */
  function Interval(lo: nat, hi: nat): set<nat>
    decreases hi
  {
    if hi <= lo then {} else Interval(lo, hi - 1) + {hi - 1}
  }

  lemma {:induction false} IntervalMembers(lo: nat, hi: nat)
    ensures forall i :: i in Interval(lo, hi) <==> lo <= i < hi
    decreases hi
  {
    if lo < hi {
      IntervalMembers(lo, hi - 1);
    }
  }

  lemma {:induction false} LargestExists(s: set<nat>)
    requires s != {}
    ensures exists m :: m in s && forall y :: y in s ==> y <= m
    decreases |s|
  {
    var x :| x in s;
    var rest := s - {x};
    assert forall y :: y in s ==> y in rest || y == x;
    if rest == {} {
      assert forall y :: y in s ==> y <= x;
    } else {
      LargestExists(rest);
      var m :| m in rest && forall y :: y in rest ==> y <= m;
      if x <= m {
        assert m in s && forall y :: y in s ==> y <= m;
      } else {
        assert x in s && forall y :: y in s ==> y <= x;
      }
    }
  }

  /** `Math.max(...set)`. */
  function Largest(s: set<nat>): (m: nat)
    requires s != {}
    ensures m in s && forall y :: y in s ==> y <= m
  {
    LargestExists(s);
    var m :| m in s && forall y :: y in s ==> y <= m;
    m
  }

  function Elements(s: seq<nat>): set<nat> {
    set x | x in s
  }

  /** `Array.from(indices).sort((a, b) => b - a)`: the indices, largest first. */
  function Descending(s: set<nat>): (r: seq<nat>)
    ensures Elements(r) == s
    ensures forall p, q :: 0 <= p < q < |r| ==> r[p] > r[q]
    decreases |s|
  {
    if s == {} then []
    else
      var m := Largest(s);
      var rest := Descending(s - {m});
      PrependLargest(s, m, rest);
      [m] + rest
  }

  lemma PrependLargest(s: set<nat>, m: nat, rest: seq<nat>)
    requires m in s && forall y :: y in s ==> y <= m
    requires Elements(rest) == s - {m}
    requires forall p, q :: 0 <= p < q < |rest| ==> rest[p] > rest[q]
    ensures Elements([m] + rest) == s
    ensures forall p, q :: 0 <= p < q < |[m] + rest| ==> ([m] + rest)[p] > ([m] + rest)[q]
  {
    var r := [m] + rest;
    assert forall y :: y in rest ==> y in s - {m};
    assert Elements(r) == {m} + Elements(rest);
    forall p, q | 0 <= p < q < |r|
      ensures r[p] > r[q]
    {
      if p == 0 {
        assert r[q] == rest[q - 1] && rest[q - 1] in rest;
      } else {
        assert r[p] == rest[p - 1] && r[q] == rest[q - 1];
      }
    }
  }

  /** The selection after a click on index `i`, shared by rows and columns. */
  function Toggle(sel: set<nat>, i: nat, multi: bool, range: bool): set<nat> {
    if range && sel != {} then
      var last := Largest(sel);
      sel + Interval(Min(last, i), Max(last, i) + 1)
    else if multi then
      if i in sel then sel - {i} else sel + {i}
    else {i}
  }

  /**
   * `addToHistory`: drops the entries after the current one, appends a
   * snapshot of the table, and drops the oldest entry when there are more
   * than 20.
   */
  function AddToHistory(st: Store, action: string): Store
    requires HistoryValid(st)
  {
    var pushed := st.history[..st.historyIndex + 1] + [Entry(st.processedData, st.headers, action)];
    var history := if |pushed| > MaxHistorySize then pushed[1..] else pushed;
    st.(history := history, historyIndex := |history| - 1)
  }

  function DeleteRows(st: Store, rows: set<nat>): Store
    requires HistoryValid(st)
  {
    var s := AddToHistory(st, DeleteRowsAction);
    s.(processedData := Without(s.processedData, rows), selectedRows := {})
  }

  /** Every row without the deleted positions. */
  function DropColumns(data: seq<seq<string>>, columns: set<nat>): (r: seq<seq<string>>)
    ensures |r| == |data| && forall k :: 0 <= k < |data| ==> r[k] == Without(data[k], columns)
  {
    seq(|data|, k requires 0 <= k < |data| => Without(data[k], columns))
  }

  function DeleteColumns(st: Store, columns: set<nat>): Store
    requires HistoryValid(st)
  {
    var s := AddToHistory(st, DeleteColumnsAction);
    s.(headers := Without(s.headers, columns), processedData := DropColumns(s.processedData, columns),
       selectedColumns := {})
  }

  predicate CanUndo(st: Store) { st.historyIndex > 0 }

  predicate CanRedo(st: Store) { st.historyIndex < |st.history| - 1 }

  /** Loads history entry `k` and clears both selections. */
  function Load(st: Store, k: nat): Store
    requires k < |st.history|
  {
    st.(processedData := st.history[k].processedData, headers := st.history[k].headers,
        historyIndex := k, selectedRows := {}, selectedColumns := {})
  }

  function Undo(st: Store): Store
    requires HistoryValid(st)
  {
    if CanUndo(st) then Load(st, st.historyIndex - 1) else st
  }

  function Redo(st: Store): Store
    requires HistoryValid(st)
  {
    if CanRedo(st) then Load(st, st.historyIndex + 1) else st
  }

  /** Loading a file starts a one-entry history: nothing to undo or redo. */
  lemma SetDataStartsHistory(st: Store, rawData: seq<seq<string>>, processedData: seq<seq<string>>,
                             headers: seq<string>, originalHeaders: seq<string>)
    ensures var s := SetData(st, rawData, processedData, headers, originalHeaders);
      HistoryValid(s) && !CanUndo(s) && !CanRedo(s)
      && s.history[s.historyIndex] == Entry(processedData, headers, FileLoaded)
      && Undo(s) == s && Redo(s) == s
  {
  }

  /** After `reset` the history is empty and undo and redo do nothing. */
  lemma ResetEmptiesHistory()
    ensures HistoryValid(Empty()) && !CanUndo(Empty()) && !CanRedo(Empty())
    ensures Undo(Empty()) == Empty() && Redo(Empty()) == Empty()
  {
  }

  /**
   * A range click on a non-empty selection adds every index between `i` and
   * the largest selected index; a multi click flips `i` alone; any other
   * click selects `i` alone.
   */
  lemma ToggleCases(sel: set<nat>, i: nat, multi: bool, range: bool)
    ensures range && sel != {} ==>
      var r := Toggle(sel, i, multi, range);
      sel <= r && i in r && Largest(sel) in r
      && (forall x :: x in r && x !in sel ==> Min(Largest(sel), i) <= x <= Max(Largest(sel), i))
      && forall x: nat :: Min(Largest(sel), i) <= x <= Max(Largest(sel), i) ==> x in r
    ensures !(range && sel != {}) && multi ==>
      var r := Toggle(sel, i, multi, range);
      (i in r <==> i !in sel) && forall x :: x != i ==> (x in r <==> x in sel)
    ensures !(range && sel != {}) && !multi ==> Toggle(sel, i, multi, range) == {i}
  {
    if range && sel != {} {
      IntervalMembers(Min(Largest(sel), i), Max(Largest(sel), i) + 1);
    }
  }

  /** Two multi clicks on the same index cancel out. */
  lemma MultiToggleTwice(sel: set<nat>, i: nat)
    ensures Toggle(Toggle(sel, i, true, false), i, true, false) == sel
  {
  }

  /**
   * `addToHistory` discards the redo branch, records the current table as the
   * newest entry, keeps the history at 20 entries or fewer by dropping the
   * oldest, and changes nothing else.
   */
  lemma AddToHistorySpec(st: Store, action: string)
    requires HistoryValid(st)
    ensures var s := AddToHistory(st, action);
      HistoryValid(s) && !CanRedo(s)
      && s.history[s.historyIndex] == Entry(st.processedData, st.headers, action)
      && s.historyIndex == Min(st.historyIndex + 1, MaxHistorySize - 1)
      && (CanUndo(s) <==> st.historyIndex >= 0)
      && s.(history := st.history, historyIndex := st.historyIndex) == st
    ensures var s := AddToHistory(st, action);
      var dropped := st.historyIndex + 1 - s.historyIndex;
      (dropped == 0 || dropped == 1)
      && forall k :: 0 <= k < s.historyIndex ==> s.history[k] == st.history[k + dropped]
  {
    var pushed := st.history[..st.historyIndex + 1] + [Entry(st.processedData, st.headers, action)];
    var s := AddToHistory(st, action);
    if |pushed| > MaxHistorySize {
      assert s.history == pushed[1..];
      assert forall k :: 0 <= k < s.historyIndex ==> s.history[k] == pushed[k + 1];
    } else {
      assert s.history == pushed;
    }
  }

  /**
   * `deleteRows` removes exactly the listed positions that exist, ignores the
   * others, keeps the remaining rows in order, records the previous table in
   * the history and clears the row selection.
   */
  lemma DeleteRowsSpec(st: Store, rows: set<nat>)
    requires HistoryValid(st)
    ensures var s := DeleteRows(st, rows);
      HistoryValid(s) && !CanRedo(s)
      && s.history[s.historyIndex] == Entry(st.processedData, st.headers, DeleteRowsAction)
      && |s.processedData| == |st.processedData| - |Below(rows, |st.processedData|)|
      && s.processedData == DeleteRows(st, Below(rows, |st.processedData|)).processedData
      && s.headers == st.headers && s.selectedRows == {} && s.selectedColumns == st.selectedColumns
      && s.sortConfig == st.sortConfig
    ensures var s := DeleteRows(st, rows);
      (forall k :: 0 <= k < |st.processedData| && k !in rows ==> st.processedData[k] in s.processedData)
      && forall row :: row in s.processedData ==>
        exists k :: 0 <= k < |st.processedData| && k !in rows && st.processedData[k] == row
    ensures var s := DeleteRows(st, rows); var kept := KeptPositions(rows, |st.processedData|);
      |s.processedData| == |kept|
      && forall k :: 0 <= k < |kept| ==> kept[k] < |st.processedData| && s.processedData[k] == st.processedData[kept[k]]
  {
    AddToHistorySpec(st, DeleteRowsAction);
    WithoutPositions(st.processedData, rows);
    WithoutLength(st.processedData, rows);
    WithoutIgnoresOutOfRange(st.processedData, rows, |st.processedData|);
    WithoutMembers(st.processedData, rows, |st.processedData|);
  }

  /**
   * `deleteColumns` removes the same positions from the headers and from every
   * row, so a table whose rows are as wide as its headers stays so.
   */
  lemma DeleteColumnsSpec(st: Store, columns: set<nat>)
    requires HistoryValid(st)
    ensures var s := DeleteColumns(st, columns);
      HistoryValid(s) && !CanRedo(s)
      && s.history[s.historyIndex] == Entry(st.processedData, st.headers, DeleteColumnsAction)
      && |s.headers| == |st.headers| - |Below(columns, |st.headers|)|
      && |s.processedData| == |st.processedData|
      && s.selectedColumns == {} && s.selectedRows == st.selectedRows && s.sortConfig == st.sortConfig
    ensures var s := DeleteColumns(st, columns);
      (forall row :: row in st.processedData ==> |row| == |st.headers|) ==>
      (forall row :: row in s.processedData ==> |row| == |s.headers|)
  {
    AddToHistorySpec(st, DeleteColumnsAction);
    WithoutLength(st.headers, columns);
    var s := DeleteColumns(st, columns);
    if forall row :: row in st.processedData ==> |row| == |st.headers| {
      forall row | row in s.processedData
        ensures |row| == |s.headers|
      {
        var k :| 0 <= k < |s.processedData| && s.processedData[k] == row;
        assert st.processedData[k] in st.processedData;
        KeepPrefixSameLength(st.processedData[k], st.headers, columns, |st.headers|);
      }
    }
  }

  /**
   * `undo` does nothing unless an earlier entry exists; otherwise it loads the
   * previous entry's table, moves the index back by one, makes redo available
   * and clears both selections. The history itself is never changed.
   */
  lemma UndoSpec(st: Store)
    requires HistoryValid(st)
    ensures HistoryValid(Undo(st)) && Undo(st).history == st.history
    ensures !CanUndo(st) ==> Undo(st) == st
    ensures CanUndo(st) ==>
      var s := Undo(st);
      s.historyIndex == st.historyIndex - 1 && CanRedo(s)
      && s.processedData == st.history[st.historyIndex - 1].processedData
      && s.headers == st.history[st.historyIndex - 1].headers
      && s.selectedRows == {} && s.selectedColumns == {}
  {
  }

  /** `redo` mirrors `undo` one entry forward. */
  lemma RedoSpec(st: Store)
    requires HistoryValid(st)
    ensures HistoryValid(Redo(st)) && Redo(st).history == st.history
    ensures !CanRedo(st) ==> Redo(st) == st
    ensures CanRedo(st) ==>
      var s := Redo(st);
      s.historyIndex == st.historyIndex + 1 && CanUndo(s)
      && s.processedData == st.history[st.historyIndex + 1].processedData
      && s.headers == st.history[st.historyIndex + 1].headers
      && s.selectedRows == {} && s.selectedColumns == {}
  {
  }

  /** One of the two history-recording edits. */
  datatype Deletion = RowDeletion(rows: set<nat>) | ColumnDeletion(columns: set<nat>)

  function Delete(st: Store, op: Deletion): Store
    requires HistoryValid(st)
  {
    match op
    case RowDeletion(rows) => DeleteRows(st, rows)
    case ColumnDeletion(columns) => DeleteColumns(st, columns)
  }

  function ActionOf(op: Deletion): string {
    match op
    case RowDeletion(_) => DeleteRowsAction
    case ColumnDeletion(_) => DeleteColumnsAction
  }

  /** Applies the edits in order. */
  function ApplyDeletes(st: Store, ops: seq<Deletion>): (r: Store)
    requires HistoryValid(st)
    ensures HistoryValid(r)
    decreases |ops|
  {
    if ops == [] then st
    else
      DeleteSpec(st, ops[0]);
      ApplyDeletes(Delete(st, ops[0]), ops[1..])
  }

  /** The table as it stood before each edit, in order. */
  function Snapshots(st: Store, ops: seq<Deletion>): seq<Entry>
    requires HistoryValid(st)
    decreases |ops|
  {
    if ops == [] then []
    else
      DeleteSpec(st, ops[0]);
      [Entry(st.processedData, st.headers, ActionOf(ops[0]))] + Snapshots(Delete(st, ops[0]), ops[1..])
  }

  /** `undo` applied `k` times. */
  function UndoTimes(st: Store, k: nat): Store
    requires HistoryValid(st)
    decreases k
  {
    if k == 0 then st
    else
      UndoSpec(st);
      UndoTimes(Undo(st), k - 1)
  }

  lemma DeleteSpec(st: Store, op: Deletion)
    requires HistoryValid(st)
    ensures var s := Delete(st, op);
      HistoryValid(s) && !CanRedo(s)
      && s.history == AddToHistory(st, ActionOf(op)).history
      && s.historyIndex == AddToHistory(st, ActionOf(op)).historyIndex
  {
  }

  /**
   * While the history has room, every edit appends the table it replaced:
   * after the edits the history is the old one followed by those tables, and
   * the index points at the last of them.
   */
  lemma {:induction false} DeletesHistory(st: Store, ops: seq<Deletion>)
    requires HistoryValid(st) && st.historyIndex == |st.history| - 1
    requires |st.history| + |ops| <= MaxHistorySize
    ensures var s := ApplyDeletes(st, ops);
      HistoryValid(s)
      && s.history == st.history + Snapshots(st, ops)
      && s.historyIndex == |st.history| + |ops| - 1
    decreases |ops|
  {
    if ops != [] {
      DeleteSpec(st, ops[0]);
      var next := Delete(st, ops[0]);
      var e := Entry(st.processedData, st.headers, ActionOf(ops[0]));
      assert next.history == st.history + [e];
      assert next.historyIndex == |st.history|;
      DeletesHistory(next, ops[1..]);
      assert ApplyDeletes(st, ops) == ApplyDeletes(next, ops[1..]);
      assert Snapshots(st, ops) == [e] + Snapshots(next, ops[1..]);
      assert st.history + [e] + Snapshots(next, ops[1..]) == st.history + Snapshots(st, ops);
    }
  }

  /** Undoing `k` times walks the index back by `k` and loads that entry. */
  lemma {:induction false} UndoSteps(st: Store, k: nat)
    requires HistoryValid(st) && k <= st.historyIndex
    ensures var s := UndoTimes(st, k);
      HistoryValid(s) && s.history == st.history && s.historyIndex == st.historyIndex - k
      && (k > 0 ==> s.processedData == st.history[s.historyIndex].processedData
                    && s.headers == st.history[s.historyIndex].headers)
    decreases k
  {
    if k > 0 {
      UndoSpec(st);
      UndoSteps(Undo(st), k - 1);
    }
  }

  /**
   * After loading a file and making at most 19 edits, undoing once per edit
   * brings back the loaded table.
   */
  lemma UndoAllDeletes(st: Store, rawData: seq<seq<string>>, processedData: seq<seq<string>>,
                       headers: seq<string>, originalHeaders: seq<string>, ops: seq<Deletion>)
    requires |ops| + 1 <= MaxHistorySize
    ensures var loaded := SetData(st, rawData, processedData, headers, originalHeaders);
      var s := UndoTimes(ApplyDeletes(loaded, ops), |ops|);
      s.processedData == processedData && s.headers == headers && !CanUndo(s)
  {
    var loaded := SetData(st, rawData, processedData, headers, originalHeaders);
    DeletesHistory(loaded, ops);
    var edited := ApplyDeletes(loaded, ops);
    assert edited.history[0] == Entry(processedData, headers, FileLoaded);
    UndoSteps(edited, |ops|);
    if ops == [] {
      assert UndoTimes(edited, 0) == loaded;
    }
  }

  /**
   * The history records the table before each edit, never the one after, and
   * `undo` loads the entry below the current index: after two edits in a row
   * a single `undo` goes back past the intermediate table to the one before
   * the first edit.
   */
  lemma UndoSkipsIntermediate(st: Store, first: Deletion, second: Deletion)
    requires HistoryValid(st) && st.historyIndex == |st.history| - 1
    requires |st.history| + 2 <= MaxHistorySize
    ensures var s := Undo(Delete(Delete(st, first), second));
      s.processedData == st.processedData && s.headers == st.headers
  {
    DeletesHistory(st, [first, second]);
    DeleteSpec(st, first);
    var once := Delete(st, first);
    assert ApplyDeletes(st, [first, second]) == ApplyDeletes(once, [second]) by {
      assert [first, second][1..] == [second];
    }
    DeleteSpec(once, second);
    assert ApplyDeletes(once, [second]) == ApplyDeletes(Delete(once, second), []) by {
      assert [second][1..] == [];
    }
    assert Snapshots(st, [first, second])[0] == Entry(st.processedData, st.headers, ActionOf(first));
  }

  /**
   * For the same reason `redo` after `undo` does not bring back the edited
   * table: it loads the table as it was before the edit.
   */
  lemma RedoRestoresPreviousTable(st: Store, op: Deletion)
    requires HistoryValid(st) && st.history != [] && st.historyIndex == |st.history| - 1
    requires |st.history| < MaxHistorySize
    ensures var s := Redo(Undo(Delete(st, op)));
      s.processedData == st.processedData && s.headers == st.headers
  {
    DeleteSpec(st, op);
  }
}
