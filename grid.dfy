/**
 * The arithmetic of the virtualised data grid: column widths, the view-level
 * sort and its header-click toggle, and the row and column windows that pick
 * which cells are rendered. Pixel quantities are `real`s (exact, not IEEE).
 */
module GridView {
  import opened Base
  import opened Text
  import opened StableSort
  import opened PersonSort
  import opened StoreSpec

  const CellHeight: real := 35.0
  const MinColumnWidth: real := 80.0
  const DefaultColumnWidth: real := 150.0
  const RowNumberWidth: real := 50.0
  /** The width kept free for the vertical scrollbar. */
  const ScrollbarWidth: real := 20.0

  /** `Math.ceil`. */
  function Ceil(x: real): int {
    -((-x).Floor)
  }

  function Sum(s: seq<real>): real
    decreases |s|
  {
    if s == [] then 0.0 else Sum(s[..|s| - 1]) + s[|s| - 1]
  }

  lemma {:induction false} SumConstant(s: seq<real>, c: real)
    requires forall k :: 0 <= k < |s| ==> s[k] == c
    ensures Sum(s) == |s| as real * c
    decreases |s|
  {
    if s != [] {
      SumConstant(s[..|s| - 1], c);
      assert (|s| - 1) as real * c + c == |s| as real * c;
    }
  }

  /**
   * `columnWidths`: every column gets the same width, the available width
   * shared out, but never below 80 and never above 150.
   */
  function ColumnWidths(headerCount: nat, containerWidth: real): (r: seq<real>)
    ensures |r| == headerCount
    ensures forall k :: 0 <= k < |r| ==> MinColumnWidth <= r[k] <= DefaultColumnWidth
    ensures forall k, l :: 0 <= k < |r| && 0 <= l < |r| ==> r[k] == r[l]
  {
    if headerCount == 0 then []
    else
      var available := containerWidth - RowNumberWidth - ScrollbarWidth;
      var share := available / headerCount as real;
      var base := if MinColumnWidth <= share then share else MinColumnWidth;
      var width := if base <= DefaultColumnWidth then base else DefaultColumnWidth;
      seq(headerCount, _ => width)
  }

  /** When the share of the available width lies within the bounds, the columns fill it exactly. */
  lemma ColumnWidthsFill(headerCount: nat, containerWidth: real)
    requires headerCount > 0
    requires var available := containerWidth - RowNumberWidth - ScrollbarWidth;
      MinColumnWidth * headerCount as real <= available <= DefaultColumnWidth * headerCount as real
    ensures Sum(ColumnWidths(headerCount, containerWidth)) == containerWidth - RowNumberWidth - ScrollbarWidth
  {
    var w := ColumnWidths(headerCount, containerWidth);
    var available := containerWidth - RowNumberWidth - ScrollbarWidth;
    var share := available / headerCount as real;
    assert MinColumnWidth <= share <= DefaultColumnWidth;
    SumConstant(w, share);
  }

  /** `a[columnIndex]?.toString() || ''`. */
  function CellText(row: seq<string>, column: nat): string {
    if column < |row| then row[column] else ""
  }

  function Sign(d: real): int {
    if d < 0.0 then -1 else if d > 0.0 then 1 else 0
  }

  /** `localeCompare` of the lower-cased texts, as code-point lexicographic order. */
  function TextCompare(x: string, y: string): int {
    var a, b := ToLower(x), ToLower(y);
    if a == b then 0 else if LexLe(a, b) then -1 else 1
  }

  /**
   * The comparator of `sortedData`, as the sign of its result. `parse` stands
   * for `parseFloat`, `None` for `NaN`.
   */
  function Compare(a: seq<string>, b: seq<string>, config: SortConfig, parse: string -> Option<real>): int {
    var x, y := CellText(a, config.columnIndex), CellText(b, config.columnIndex);
    var ascending :=
      if parse(x).Some? && parse(y).Some? then Sign(parse(x).value - parse(y).value)
      else TextCompare(x, y);
    if config.direction == Asc then ascending else -ascending
  }

  /**
   * Two numbers compare numerically, anything else compares as lower-cased
   * text; `desc` reverses the order, and swapping the arguments flips the sign.
   */
  lemma CompareSpec(a: seq<string>, b: seq<string>, config: SortConfig, parse: string -> Option<real>)
    ensures var x, y := CellText(a, config.columnIndex), CellText(b, config.columnIndex);
      parse(x).Some? && parse(y).Some? ==>
        (config.direction == Asc ==> (Compare(a, b, config, parse) <= 0 <==> parse(x).value <= parse(y).value))
        && (config.direction == Desc ==> (Compare(a, b, config, parse) <= 0 <==> parse(y).value <= parse(x).value))
    ensures var x, y := CellText(a, config.columnIndex), CellText(b, config.columnIndex);
      !(parse(x).Some? && parse(y).Some?) ==>
        (config.direction == Asc ==> (Compare(a, b, config, parse) <= 0 <==> LexLe(ToLower(x), ToLower(y))))
        && (config.direction == Desc ==> (Compare(a, b, config, parse) <= 0 <==> LexLe(ToLower(y), ToLower(x))))
    ensures Compare(a, b, config, parse) == -Compare(b, a, config, parse)
    ensures Compare(a, b, config.(direction := Desc), parse) == -Compare(a, b, config.(direction := Asc), parse)
  {
    var x, y := ToLower(CellText(a, config.columnIndex)), ToLower(CellText(b, config.columnIndex));
    LexLeTotal(x, y);
    if LexLe(x, y) && LexLe(y, x) {
      LexLeAntisym(x, y);
    }
    LexLeReflexive(x);
  }

  /** `compare(a, b) <= 0`: `a` may stay before `b`. */
  function ViewOrder(config: SortConfig, parse: string -> Option<real>): (seq<string>, seq<string>) -> bool {
    (a: seq<string>, b: seq<string>) => Compare(a, b, config, parse) <= 0
  }

  /** `sortedData`: the stored rows when there is no sort setting or no rows, otherwise a sorted copy. */
  function ViewRows(data: seq<seq<string>>, config: Option<SortConfig>, parse: string -> Option<real>): seq<seq<string>> {
    if config.None? || |data| == 0 then data else Sort(data, ViewOrder(config.value, parse))
  }

  /** The view holds the same rows as the store, as many times each. */
  lemma ViewRowsPermutes(data: seq<seq<string>>, config: Option<SortConfig>, parse: string -> Option<real>)
    ensures config.None? ==> ViewRows(data, config, parse) == data
    ensures multiset(ViewRows(data, config, parse)) == multiset(data)
    ensures |ViewRows(data, config, parse)| == |data|
  {
    if config.Some? {
      SortPermutes(data, ViewOrder(config.value, parse));
    }
  }

  /** The value in the sort column of a row whose cell parses as a number. */
  function NumberAt(row: seq<string>, config: SortConfig, parse: string -> Option<real>): real
    requires parse(CellText(row, config.columnIndex)).Some?
  {
    parse(CellText(row, config.columnIndex)).value
  }

  /** When every cell of the sort column is a number, the view is in numeric order. */
  lemma NumericColumnSorted(data: seq<seq<string>>, config: SortConfig, parse: string -> Option<real>)
    requires forall row :: row in data ==> parse(CellText(row, config.columnIndex)).Some?
    ensures var v := ViewRows(data, Some(config), parse);
      forall i, j :: 0 <= i < j < |v| ==>
        parse(CellText(v[i], config.columnIndex)).Some? && parse(CellText(v[j], config.columnIndex)).Some?
        && (config.direction == Asc ==> NumberAt(v[i], config, parse) <= NumberAt(v[j], config, parse))
        && (config.direction == Desc ==> NumberAt(v[j], config, parse) <= NumberAt(v[i], config, parse))
  {
    var le := ViewOrder(config, parse);
    NumericPreorder(data, config, parse);
    ViewRowsPermutes(data, Some(config), parse);
    if |data| > 0 {
      SortSorted(data, le);
      var v := ViewRows(data, Some(config), parse);
      forall i, j | 0 <= i < j < |v|
        ensures parse(CellText(v[i], config.columnIndex)).Some? && parse(CellText(v[j], config.columnIndex)).Some?
        ensures config.direction == Asc ==> NumberAt(v[i], config, parse) <= NumberAt(v[j], config, parse)
        ensures config.direction == Desc ==> NumberAt(v[j], config, parse) <= NumberAt(v[i], config, parse)
      {
        assert v[i] in multiset(v) && v[j] in multiset(v);
        assert le(v[i], v[j]);
        CompareSpec(v[i], v[j], config, parse);
      }
    }
  }

  lemma NumericPreorder(data: seq<seq<string>>, config: SortConfig, parse: string -> Option<real>)
    requires forall row :: row in data ==> parse(CellText(row, config.columnIndex)).Some?
    ensures PreorderOn(multiset(data), ViewOrder(config, parse))
  {
    var le := ViewOrder(config, parse);
    forall a, b | a in multiset(data) && b in multiset(data)
      ensures le(a, b) || le(b, a)
    {
      CompareSpec(a, b, config, parse);
    }
    forall a, b, c | a in multiset(data) && b in multiset(data) && c in multiset(data) && le(a, b) && le(b, c)
      ensures le(a, c)
    {
      CompareSpec(a, b, config, parse);
      CompareSpec(b, c, config, parse);
      CompareSpec(a, c, config, parse);
    }
  }

  /** When no cell of the sort column is a number, the view is in lower-cased text order. */
  lemma TextColumnSorted(data: seq<seq<string>>, config: SortConfig, parse: string -> Option<real>)
    requires forall row :: row in data ==> parse(CellText(row, config.columnIndex)).None?
    ensures var v := ViewRows(data, Some(config), parse);
      forall i, j :: 0 <= i < j < |v| ==>
        var x, y := ToLower(CellText(v[i], config.columnIndex)), ToLower(CellText(v[j], config.columnIndex));
        (config.direction == Asc ==> LexLe(x, y)) && (config.direction == Desc ==> LexLe(y, x))
  {
    var le := ViewOrder(config, parse);
    TextPreorder(data, config, parse);
    ViewRowsPermutes(data, Some(config), parse);
    if |data| > 0 {
      SortSorted(data, le);
      var v := ViewRows(data, Some(config), parse);
      forall i, j | 0 <= i < j < |v|
        ensures var x, y := ToLower(CellText(v[i], config.columnIndex)), ToLower(CellText(v[j], config.columnIndex));
          (config.direction == Asc ==> LexLe(x, y)) && (config.direction == Desc ==> LexLe(y, x))
      {
        assert v[i] in multiset(v) && v[j] in multiset(v);
        assert le(v[i], v[j]);
        CompareSpec(v[i], v[j], config, parse);
      }
    }
  }

  lemma TextPreorder(data: seq<seq<string>>, config: SortConfig, parse: string -> Option<real>)
    requires forall row :: row in data ==> parse(CellText(row, config.columnIndex)).None?
    ensures PreorderOn(multiset(data), ViewOrder(config, parse))
  {
    var le := ViewOrder(config, parse);
    forall a, b | a in multiset(data) && b in multiset(data)
      ensures le(a, b) || le(b, a)
    {
      CompareSpec(a, b, config, parse);
    }
    forall a, b, c | a in multiset(data) && b in multiset(data) && c in multiset(data) && le(a, b) && le(b, c)
      ensures le(a, c)
    {
      CompareSpec(a, b, config, parse);
      CompareSpec(b, c, config, parse);
      CompareSpec(a, c, config, parse);
      var x, y, z := ToLower(CellText(a, config.columnIndex)), ToLower(CellText(b, config.columnIndex)),
                     ToLower(CellText(c, config.columnIndex));
      if config.direction == Asc {
        LexLeTrans(x, y, z);
      } else {
        LexLeTrans(z, y, x);
      }
    }
  }

  /** `handleSort`: a click on the column sorted ascending sorts it descending; any other click sorts ascending. */
  function HandleSort(current: Option<SortConfig>, column: nat): (r: SortConfig)
    ensures r.columnIndex == column
    ensures r.direction == Desc <==> current == Some(SortConfig(column, Asc))
  {
    var currentDirection := if current.Some? && current.value.columnIndex == column then Some(current.value.direction) else None;
    SortConfig(column, if currentDirection == Some(Asc) then Desc else Asc)
  }

  /** Clicking the same header again always flips the direction. */
  lemma HandleSortAlternates(current: Option<SortConfig>, column: nat)
    ensures HandleSort(Some(HandleSort(current, column)), column).direction != HandleSort(current, column).direction
    ensures HandleSort(Some(HandleSort(Some(HandleSort(current, column)), column)), column) == HandleSort(current, column)
  {
  }

  /** `visibleRowCount`: the rows that fit, plus five. */
  function VisibleRowCount(containerHeight: real): int {
    Ceil(containerHeight / CellHeight) + 5
  }

  function StartRow(scrollTop: real): int {
    (scrollTop / CellHeight).Floor
  }

  function EndRow(scrollTop: real, containerHeight: real, rowCount: nat): int {
    Min(StartRow(scrollTop) + VisibleRowCount(containerHeight), rowCount)
  }

  /** Row `r`'s band `[35 r, 35 r + 35)` meets the visible band `[scrollTop, scrollTop + H)`. */
  predicate RowVisible(r: nat, scrollTop: real, containerHeight: real) {
    CellHeight * r as real < scrollTop + containerHeight && scrollTop < CellHeight * r as real + CellHeight
  }

  /**
   * The row window stays inside the table and contains every row whose band
   * `[35 r, 35 r + 35)` meets the visible band `[scrollTop, scrollTop + H)`.
   */
  lemma RowWindowCovers(scrollTop: real, containerHeight: real, rowCount: nat)
    requires scrollTop >= 0.0 && containerHeight >= 0.0
    ensures 0 <= StartRow(scrollTop) && EndRow(scrollTop, containerHeight, rowCount) <= rowCount
    ensures forall r: nat :: r < rowCount && RowVisible(r, scrollTop, containerHeight) ==>
      StartRow(scrollTop) <= r < EndRow(scrollTop, containerHeight, rowCount)
  {
    var s := scrollTop / CellHeight;
    var h := containerHeight / CellHeight;
    assert s.Floor as real <= s < s.Floor as real + 1.0;
    assert h <= Ceil(h) as real;
    forall r: nat | r < rowCount && RowVisible(r, scrollTop, containerHeight)
      ensures StartRow(scrollTop) <= r < EndRow(scrollTop, containerHeight, rowCount)
    {
      assert r as real < s + h;
      assert s < r as real + 1.0;
    }
  }

  /** The right edge of column `i`, counted from the left of the row-number column. */
  function RightEdge(widths: seq<real>, i: nat): real
    requires i < |widths|
  {
    RowNumberWidth + Sum(widths[..i + 1])
  }

  /** The first of the first `n` columns whose right edge lies past `scrollLeft`, or `n`. */
  function Leftmost(widths: seq<real>, scrollLeft: real, n: nat): (k: nat)
    requires n <= |widths|
    ensures k <= n
    ensures k < n ==> RightEdge(widths, k) > scrollLeft
    ensures forall j :: 0 <= j < k ==> RightEdge(widths, j) <= scrollLeft
  {
    if n == 0 then 0
    else
      var k := Leftmost(widths, scrollLeft, n - 1);
      if k < n - 1 || RightEdge(widths, n - 1) > scrollLeft then k else n
  }

  /** Those three properties pin `Leftmost` down. */
  lemma LeftmostUnique(widths: seq<real>, scrollLeft: real, n: nat, k: nat)
    requires n <= |widths| && k <= n
    requires k < n ==> RightEdge(widths, k) > scrollLeft
    requires forall j :: 0 <= j < k ==> RightEdge(widths, j) <= scrollLeft
    ensures k == Leftmost(widths, scrollLeft, n)
  {
  }

  /** `startCol`: the first column reaching past `scrollLeft`, or 0 when none does. */
  function FirstVisibleColumn(widths: seq<real>, scrollLeft: real): nat {
    var k := Leftmost(widths, scrollLeft, |widths|);
    if k == |widths| then 0 else k
  }

  /** The scan of `DataGrid` that finds `startCol`, stopping at the first column past `scrollLeft`. */
  method StartCol(widths: seq<real>, scrollLeft: real) returns (startCol: nat)
    ensures startCol == FirstVisibleColumn(widths, scrollLeft)
  {
    startCol := 0;
    var accumulatedWidth := RowNumberWidth;
    var i := 0;
    while i < |widths|
      invariant 0 <= i <= |widths|
      invariant accumulatedWidth == RowNumberWidth + Sum(widths[..i])
      invariant forall j :: 0 <= j < i ==> RightEdge(widths, j) <= scrollLeft
    {
      assert widths[..i + 1][..i] == widths[..i];
      if accumulatedWidth + widths[i] > scrollLeft {
        startCol := i;
        LeftmostUnique(widths, scrollLeft, |widths|, i);
        return;
      }
      accumulatedWidth := accumulatedWidth + widths[i];
      i := i + 1;
    }
    LeftmostUnique(widths, scrollLeft, |widths|, |widths|);
  }

  /** `endCol`: as many columns after `startCol` as fit at the default width, plus three. */
  function EndCol(startCol: nat, containerWidth: real, headerCount: nat): int {
    Min(startCol + Ceil(containerWidth / DefaultColumnWidth) + 3, headerCount)
  }

  /** The column window stays inside the table and is non-empty when the table has columns. */
  lemma ColumnWindowBounds(widths: seq<real>, scrollLeft: real, containerWidth: real)
    requires containerWidth >= 0.0
    ensures var start := FirstVisibleColumn(widths, scrollLeft);
      (start < |widths| || start == 0)
      && EndCol(start, containerWidth, |widths|) <= |widths|
      && (|widths| > 0 ==> start < EndCol(start, containerWidth, |widths|))
  {
    assert Ceil(containerWidth / DefaultColumnWidth) >= 0;
  }

  /**
   * The cells the grid body draws: the rows `startRow .. endRow - 1`, and in
   * each of them the header positions inside `[startCol, endCol)`.
   */
  predicate Rendered(r: nat, c: nat, startRow: int, endRow: int, startCol: int, endCol: int, headerCount: nat) {
    startRow <= r < endRow && c < headerCount && startCol <= c < endCol
  }

  /**
   * Every drawn cell lies inside the table, and every cell of a row that meets
   * the visible band is drawn when its column is inside the column window.
   */
  lemma RenderedCells(scrollTop: real, containerHeight: real, rowCount: nat,
                      widths: seq<real>, scrollLeft: real, containerWidth: real)
    requires scrollTop >= 0.0 && containerHeight >= 0.0 && containerWidth >= 0.0
    ensures var startRow, endRow := StartRow(scrollTop), EndRow(scrollTop, containerHeight, rowCount);
      var startCol := FirstVisibleColumn(widths, scrollLeft);
      var endCol := EndCol(startCol, containerWidth, |widths|);
      (forall r: nat, c: nat :: Rendered(r, c, startRow, endRow, startCol, endCol, |widths|) ==>
         r < rowCount && c < |widths|)
      && (forall r: nat, c: nat :: r < rowCount && RowVisible(r, scrollTop, containerHeight) && startCol <= c < endCol ==>
         Rendered(r, c, startRow, endRow, startCol, endCol, |widths|))
  {
    RowWindowCovers(scrollTop, containerHeight, rowCount);
    ColumnWindowBounds(widths, scrollLeft, containerWidth);
  }

  /**
   * The column window can miss a visible column: with 20 columns in a
   * 1000-wide grid every column is 80 wide, but the window counts columns as
   * 150 wide and stops at column 10, which starts at 850, inside the view.
   */
  lemma ColumnWindowUnderCovers()
    ensures var widths := ColumnWidths(20, 1000.0);
      FirstVisibleColumn(widths, 0.0) == 0
      && EndCol(FirstVisibleColumn(widths, 0.0), 1000.0, 20) == 10
      && RowNumberWidth + Sum(widths[..10]) < 0.0 + 1000.0
  {
    var widths := ColumnWidths(20, 1000.0);
    assert widths[0] == MinColumnWidth;
    assert widths[..1] == [MinColumnWidth];
    LeftmostUnique(widths, 0.0, 20, 0);
    assert Ceil(1000.0 / DefaultColumnWidth) == 7;
    SumConstant(widths[..10], MinColumnWidth);
  }
}
