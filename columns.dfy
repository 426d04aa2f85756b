/**
 * The column projection applied to the header row and to every data row:
 * positions 0, 4 and 6 (columns 1, 5 and 7 of the statement) are dropped and
 * the remaining cells are cleaned.
 */
module ColumnFilter {
  import opened CellCleaner
  import opened Positions

  /** `IGNORED_COLUMNS`, as 0-based positions. */
  const IgnoredColumns: set<nat> := {0, 4, 6}

  /** `HEADER_ROW_INDEX`: the header is the 11th parsed row. */
  const HeaderRowIndex: nat := 10

  /** `row.filter((_, index) => !IGNORED_COLUMNS.includes(index))`. */
  function DropIgnored<T>(row: seq<T>): seq<T> {
    Without(row, IgnoredColumns)
  }

  /** How many ignored positions lie below `n`. */
  function IgnoredBelow(n: nat): nat {
    (if n > 0 then 1 else 0) + (if n > 4 then 1 else 0) + (if n > 6 then 1 else 0)
  }

  /** The position in the raw row of the `k`-th kept cell. */
  function KeptIndex(k: nat): (i: nat)
    ensures i !in IgnoredColumns
  {
    if k < 3 then k + 1 else if k == 3 then 5 else k + 3
  }

  /** The rank among the kept cells of a position that is not ignored. */
  function KeptRank(i: nat): nat
    requires i !in IgnoredColumns
  {
    i - IgnoredBelow(i)
  }

  /** Kept positions are listed in increasing order, and every position that is not ignored is listed. */
  lemma KeptIndexOrder(k: nat, i: nat)
    requires i !in IgnoredColumns
    ensures KeptIndex(k) < KeptIndex(k + 1)
    ensures KeptIndex(KeptRank(i)) == i
  {
  }

  lemma {:induction false} KeepPrefixShape<T>(row: seq<T>, n: nat)
    requires n <= |row|
    ensures |KeepPrefix(row, IgnoredColumns, n)| == n - IgnoredBelow(n)
    ensures forall k :: 0 <= k < |KeepPrefix(row, IgnoredColumns, n)| ==> KeptIndex(k) < n && KeepPrefix(row, IgnoredColumns, n)[k] == row[KeptIndex(k)]
    decreases n
  {
    if n > 0 {
      KeepPrefixShape(row, n - 1);
      if n - 1 !in IgnoredColumns {
        assert KeptIndex(KeptRank(n - 1)) == n - 1;
      }
    }
  }

  /**
   * Dropping the ignored columns removes exactly positions 0, 4 and 6 that exist
   * in the row and keeps the other cells in order.
   */
  lemma DropIgnoredShape<T>(row: seq<T>)
    ensures |DropIgnored(row)| == |row| - IgnoredBelow(|row|)
    ensures forall k :: 0 <= k < |DropIgnored(row)| ==> DropIgnored(row)[k] == row[KeptIndex(k)]
    ensures forall i :: 0 <= i < |row| && i !in IgnoredColumns ==> KeptRank(i) < |DropIgnored(row)|
  {
    KeepPrefixShape(row, |row|);
  }

  /** `filterAndCleanRow`: the kept cells, each cleaned; rows are not padded to any width. */
  function FilterAndCleanRow(row: seq<string>): (r: seq<string>)
    ensures |r| == |row| - IgnoredBelow(|row|)
    ensures forall k :: 0 <= k < |r| ==> r[k] == Clean(row[KeptIndex(k)])
  {
    var kept := DropIgnored(row);
    DropIgnoredShape(row);
    seq(|kept|, k requires 0 <= k < |kept| => Clean(kept[k]))
  }
}
