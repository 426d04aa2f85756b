/**
 * `useCSVStore`: the table, the selections, the sort setting and the
 * undo/redo history, updated in place by its actions. Each action is proved
 * to produce the state `StoreSpec` describes.
 */
module TableStore {
  import opened Base
  import opened Positions
  import opened StoreSpec

  /** The selection after a click, built the way the store builds it: a copy, then adds or deletes. */
  method ToggledSelection(sel: set<nat>, index: nat, multi: bool, range: bool) returns (r: set<nat>)
    ensures r == Toggle(sel, index, multi, range)
  {
    r := sel;
    if range && |sel| > 0 {
      var last := Largest(sel);
      var start: nat := if last <= index then last else index;
      var end: nat := if last <= index then index else last;
      r := AddRange(sel, start, end);
    } else if multi {
      if index in r {
        r := r - {index};
      } else {
        r := r + {index};
      }
    } else {
      r := {index};
    }
  }

  /** Adds `start`, ..., `end` one at a time. */
  method AddRange(sel: set<nat>, start: nat, end: nat) returns (r: set<nat>)
    ensures r == sel + Interval(start, end + 1)
  {
    r := sel;
    var k := start;
    while k <= end
      invariant start <= k <= end + 1 || (k == start && end < start)
      invariant r == sel + Interval(start, k)
    {
      assert Interval(start, k + 1) == Interval(start, k) + {k};
      r := r + {k};
      k := k + 1;
    }
  }

  class CsvStore {
    var rawData: seq<seq<string>>
    var processedData: seq<seq<string>>
    var headers: seq<string>
    var originalHeaders: seq<string>
    var selectedRows: set<nat>
    var selectedColumns: set<nat>
    var sortConfig: Option<SortConfig>
    var history: seq<Entry>
    var historyIndex: int

    /** The store's state as a value. */
    function Model(): Store
      reads this
    {
      Store(rawData, processedData, headers, originalHeaders, selectedRows, selectedColumns,
            sortConfig, history, historyIndex)
    }

    ghost predicate Valid()
      reads this
    {
      HistoryValid(Model())
    }

    constructor ()
      ensures Model() == Empty() && Valid()
    {
      rawData, processedData, headers, originalHeaders := [], [], [], [];
      selectedRows, selectedColumns, sortConfig := {}, {}, None;
      history, historyIndex := [], -1;
    }

    method SetData(newRawData: seq<seq<string>>, newProcessedData: seq<seq<string>>,
                   newHeaders: seq<string>, newOriginalHeaders: seq<string>)
      modifies this
      ensures Model() == StoreSpec.SetData(old(Model()), newRawData, newProcessedData, newHeaders, newOriginalHeaders)
      ensures Valid()
    {
      rawData, processedData, headers, originalHeaders := newRawData, newProcessedData, newHeaders, newOriginalHeaders;
      selectedRows, selectedColumns, sortConfig := {}, {}, None;
      history := [Entry(newProcessedData, newHeaders, FileLoaded)];
      historyIndex := 0;
    }

    method SelectRows(rows: seq<nat>)
      modifies this
      ensures Model() == old(Model()).(selectedRows := set r | r in rows)
    {
      selectedRows := set r | r in rows;
    }

    method SelectColumns(columns: seq<nat>)
      modifies this
      ensures Model() == old(Model()).(selectedColumns := set c | c in columns)
    {
      selectedColumns := set c | c in columns;
    }

    method ToggleRowSelection(rowIndex: nat, multi: bool, range: bool)
      modifies this
      ensures Model() == old(Model()).(selectedRows := Toggle(old(selectedRows), rowIndex, multi, range))
    {
      selectedRows := ToggledSelection(selectedRows, rowIndex, multi, range);
    }

    method ToggleColumnSelection(columnIndex: nat, multi: bool, range: bool)
      modifies this
      ensures Model() == old(Model()).(selectedColumns := Toggle(old(selectedColumns), columnIndex, multi, range))
    {
      selectedColumns := ToggledSelection(selectedColumns, columnIndex, multi, range);
    }

    method SelectAllRows()
      modifies this
      ensures Model() == old(Model()).(selectedRows := Interval(0, |old(processedData)|))
    {
      selectedRows := Interval(0, |processedData|);
    }

    method SelectAllColumns()
      modifies this
      ensures Model() == old(Model()).(selectedColumns := Interval(0, |old(headers)|))
    {
      selectedColumns := Interval(0, |headers|);
    }

    method ClearSelections()
      modifies this
      ensures Model() == old(Model()).(selectedRows := {}, selectedColumns := {})
    {
      selectedRows, selectedColumns := {}, {};
    }

    method SetSortConfig(config: Option<SortConfig>)
      modifies this
      ensures Model() == old(Model()).(sortConfig := config)
    {
      sortConfig := config;
    }

    method AddToHistory(action: string)
      requires Valid()
      modifies this
      ensures Model() == StoreSpec.AddToHistory(old(Model()), action)
      ensures Valid()
    {
      AddToHistorySpec(Model(), action);
      var newHistory := history[..historyIndex + 1];
      newHistory := newHistory + [Entry(processedData, headers, action)];
      if |newHistory| > MaxHistorySize {
        newHistory := newHistory[1..];
      }
      history := newHistory;
      historyIndex := |newHistory| - 1;
    }

    method DeleteRows(rowIndices: set<nat>)
      requires Valid()
      modifies this
      ensures Model() == StoreSpec.DeleteRows(old(Model()), rowIndices)
      ensures Valid()
    {
      AddToHistory(DeleteRowsAction);
      ghost var recorded := Model();
      var sortedIndices := Descending(rowIndices);
      var newData := processedData;
      ghost var data := processedData;
      NothingDropped(data, sortedIndices);
      for t := 0 to |sortedIndices|
        invariant Model() == recorded
        invariant newData == KeepPrefix(data, Elements(sortedIndices[..t]), |data|)
      {
        var index := sortedIndices[t];
        DroppedAbove(sortedIndices, t);
        SpliceStep(data, Elements(sortedIndices[..t]), index, |data|);
        newData := Splice(newData, index);
      }
      assert sortedIndices[..|sortedIndices|] == sortedIndices;
      assert newData == Without(data, rowIndices);
      processedData := newData;
      selectedRows := {};
      assert Model() == recorded.(processedData := Without(recorded.processedData, rowIndices), selectedRows := {});
    }

    method DeleteColumns(columnIndices: set<nat>)
      requires Valid()
      modifies this
      ensures Model() == StoreSpec.DeleteColumns(old(Model()), columnIndices)
      ensures Valid()
    {
      AddToHistory(DeleteColumnsAction);
      ghost var recorded := Model();
      var sortedIndices := Descending(columnIndices);
      var newHeaders := headers;
      var newData := processedData;
      ghost var heads := headers;
      ghost var data := processedData;
      NothingDropped(heads, sortedIndices);
      NoRowDropped(data);
      for t := 0 to |sortedIndices|
        invariant Model() == recorded
        invariant newHeaders == KeepPrefix(heads, Elements(sortedIndices[..t]), |heads|)
        invariant RowsWithout(data, newData, Elements(sortedIndices[..t]), |data|)
      {
        var index := sortedIndices[t];
        ghost var done := Elements(sortedIndices[..t]);
        DroppedAbove(sortedIndices, t);
        SpliceStep(heads, done, index, |heads|);
        newHeaders := Splice(newHeaders, index);
        for r := 0 to |newData|
          invariant Model() == recorded
          invariant RowsWithout(data, newData, done + {index}, r)
          invariant RowsFrom(data, newData, done, r)
        {
          SpliceStep(data[r], done, index, |data[r]|);
          newData := newData[r := Splice(newData[r], index)];
        }
      }
      assert sortedIndices[..|sortedIndices|] == sortedIndices;
      assert newHeaders == Without(heads, columnIndices);
      assert newData == DropColumns(data, columnIndices);
      headers := newHeaders;
      processedData := newData;
      selectedColumns := {};
      assert Model() == recorded.(headers := Without(recorded.headers, columnIndices),
                                  processedData := DropColumns(recorded.processedData, columnIndices),
                                  selectedColumns := {});
    }

    method CanUndo() returns (b: bool)
      ensures b == StoreSpec.CanUndo(Model())
    {
      b := historyIndex > 0;
    }

    method CanRedo() returns (b: bool)
      ensures b == StoreSpec.CanRedo(Model())
    {
      b := historyIndex < |history| - 1;
    }

    method Undo()
      requires Valid()
      modifies this
      ensures Model() == StoreSpec.Undo(old(Model()))
      ensures Valid()
    {
      UndoSpec(Model());
      var can := CanUndo();
      if can {
        var newIndex := historyIndex - 1;
        var entry := history[newIndex];
        processedData, headers := entry.processedData, entry.headers;
        historyIndex := newIndex;
        selectedRows, selectedColumns := {}, {};
      }
    }

    method Redo()
      requires Valid()
      modifies this
      ensures Model() == StoreSpec.Redo(old(Model()))
      ensures Valid()
    {
      RedoSpec(Model());
      var can := CanRedo();
      if can {
        var newIndex := historyIndex + 1;
        var entry := history[newIndex];
        processedData, headers := entry.processedData, entry.headers;
        historyIndex := newIndex;
        selectedRows, selectedColumns := {}, {};
      }
    }

    method Reset()
      modifies this
      ensures Model() == Empty() && Valid()
    {
      rawData, processedData, headers, originalHeaders := [], [], [], [];
      selectedRows, selectedColumns, sortConfig := {}, {}, None;
      history, historyIndex := [], -1;
    }
  }

  /** The first `n` rows of `edited` are the rows of `data` without the positions in `d`. */
  ghost predicate RowsWithout(data: seq<seq<string>>, edited: seq<seq<string>>, d: set<nat>, n: nat) {
    |edited| == |data| && n <= |data|
    && forall q :: 0 <= q < n ==> edited[q] == KeepPrefix(data[q], d, |data[q]|)
  }

  /** Rows from `n` on still lack exactly the positions in `d`. */
  ghost predicate RowsFrom(data: seq<seq<string>>, edited: seq<seq<string>>, d: set<nat>, n: nat) {
    |edited| == |data|
    && forall q :: n <= q < |data| ==> edited[q] == KeepPrefix(data[q], d, |data[q]|)
  }

  lemma NothingDropped<T>(s: seq<T>, sorted: seq<nat>)
    ensures Elements(sorted[..0]) == {}
    ensures KeepPrefix(s, {}, |s|) == s
  {
    KeepPrefixBelow(s, {}, |s|, |s|);
  }

  lemma NoRowDropped(data: seq<seq<string>>)
    ensures RowsWithout(data, data, {}, |data|)
  {
    forall q | 0 <= q < |data|
      ensures data[q] == KeepPrefix(data[q], {}, |data[q]|)
    {
      NothingDropped(data[q], []);
    }
  }

  /** The indices already removed are all larger than the next one. */
  lemma DroppedAbove(sorted: seq<nat>, t: nat)
    requires t < |sorted|
    requires forall p, q :: 0 <= p < q < |sorted| ==> sorted[p] > sorted[q]
    ensures forall x :: x in Elements(sorted[..t]) ==> x > sorted[t]
    ensures Elements(sorted[..t + 1]) == Elements(sorted[..t]) + {sorted[t]}
  {
    assert sorted[..t + 1] == sorted[..t] + [sorted[t]];
  }
}
