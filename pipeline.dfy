/**
 * `processCSVData`: validates the parsed rows, normalises the header row
 * (row 11), projects and cleans the data rows after it, drops the rows with no
 * content, sorts by person name when there are more than 3 headers, and adds
 * the `Total` column.
 */
module CsvPipeline {
  import opened Base
  import opened Text
  import opened ColumnFilter
  import opened HeaderNormalizer
  import opened PersonSort
  import opened GrandTotal

  /** The errors `processCSVData` throws. */
  datatype CsvError = EmptyFile | TooFewRows(found: nat) | EmptyHeaderRow | NoDataRows

  /** The table `processCSVData` returns. */
  datatype Processed = Processed(
    rawData: seq<seq<string>>,
    processedData: seq<seq<string>>,
    headers: seq<string>,
    originalHeaders: seq<string>)

  /** The text of the thrown error. */
  function Message(e: CsvError): string {
    match e
    case EmptyFile => "CSV file is empty"
    case TooFewRows(n) =>
      "CSV file must have at least " + NatToString(HeaderRowIndex + 1) + " rows (found " + NatToString(n) + ")"
    case EmptyHeaderRow => "Header row is empty"
    case NoDataRows => "No data rows found after processing"
  }

  /** `row.some(cell => cell !== '')`. */
  predicate HasContent(row: seq<string>) {
    exists k :: 0 <= k < |row| && row[k] != ""
  }

  /** The rows with content, in order. */
  function RowsWithContent(rows: seq<seq<string>>): seq<seq<string>> {
    if rows == [] then []
    else RowsWithContent(rows[..|rows| - 1]) + (if HasContent(rows[|rows| - 1]) then [rows[|rows| - 1]] else [])
  }

  /** `dataRows.map(row => filterAndCleanRow(row, IGNORED_COLUMNS))`. */
  function CleanAll(rows: seq<seq<string>>): (r: seq<seq<string>>)
    ensures |r| == |rows| && forall k :: 0 <= k < |rows| ==> r[k] == FilterAndCleanRow(rows[k])
  {
    seq(|rows|, k requires 0 <= k < |rows| => FilterAndCleanRow(rows[k]))
  }

  /** Every data row after the header row, projected and cleaned, empty rows dropped. */
  function DataRows(rawData: seq<seq<string>>): seq<seq<string>>
    requires |rawData| > HeaderRowIndex
  {
    RowsWithContent(CleanAll(rawData[HeaderRowIndex + 1..]))
  }

  /** The data rows in the order `processCSVData` leaves them before the totals. */
  function Ordered(rows: seq<seq<string>>, headers: seq<string>): seq<seq<string>> {
    if |headers| > PersonNameIndex then SortByPerson(rows) else rows
  }

  /**
   * `processCSVData`. The error cases are checked in the source's order; on
   * success the headers are the normalised header row plus `Total`, and the
   * rows are the ordered data rows, each with its `Total` cell when there are
   * at least 6 headers.
   */
  method ProcessCsvData(rawData: seq<seq<string>>, parse: string -> Option<int>, format: int -> string)
    returns (r: Result<Processed, CsvError>)
    ensures |rawData| == 0 ==> r == Err(EmptyFile)
    ensures 0 < |rawData| <= HeaderRowIndex ==> r == Err(TooFewRows(|rawData|))
    ensures |rawData| > HeaderRowIndex && rawData[HeaderRowIndex] == [] ==> r == Err(EmptyHeaderRow)
    ensures |rawData| > HeaderRowIndex && rawData[HeaderRowIndex] != [] && DataRows(rawData) == [] ==>
      r == Err(NoDataRows)
    ensures |rawData| > HeaderRowIndex && rawData[HeaderRowIndex] != [] && DataRows(rawData) != [] ==> r.Ok?
    ensures r.Ok? ==>
      |rawData| > HeaderRowIndex && rawData[HeaderRowIndex] != [] && DataRows(rawData) != []
      && var headers := NormalizedHeaders(rawData[HeaderRowIndex]);
         var rows := Ordered(DataRows(rawData), headers);
         r.value.rawData == rawData
         && r.value.originalHeaders == rawData[HeaderRowIndex]
         && r.value.headers == headers + [TotalHeader]
         && (|headers| <= DebitAmountIndex ==> r.value.processedData == rows)
         && (|headers| > DebitAmountIndex ==>
               |r.value.processedData| == |rows|
               && forall i :: 0 <= i < |rows| ==> r.value.processedData[i] == rows[i] + [TotalCell(rows, i, parse, format)])
  {
    if |rawData| == 0 {
      return Err(EmptyFile);
    }
    if |rawData| < HeaderRowIndex + 1 {
      return Err(TooFewRows(|rawData|));
    }
    var headerRow := rawData[HeaderRowIndex];
    if |headerRow| == 0 {
      return Err(EmptyHeaderRow);
    }
    var cleanHeaders, originalHeaders := ProcessHeaders(headerRow);
    var processedData := DataRows(rawData);
    if |processedData| == 0 {
      return Err(NoDataRows);
    }
    if |cleanHeaders| > PersonNameIndex {
      processedData := SortByPerson(processedData);
    }
    var data, headers := AddGrandTotalColumn(processedData, cleanHeaders, parse, format);
    return Ok(Processed(rawData, data, headers, originalHeaders));
  }

  /** Kept rows all have content, and they come from the input. */
  lemma {:induction false} RowsWithContentSpec(rows: seq<seq<string>>)
    ensures |RowsWithContent(rows)| <= |rows|
    ensures forall k :: 0 <= k < |RowsWithContent(rows)| ==> HasContent(RowsWithContent(rows)[k]) && RowsWithContent(rows)[k] in rows
    decreases |rows|
  {
    if rows != [] {
      RowsWithContentSpec(rows[..|rows| - 1]);
    }
  }

  /** Rows with content are all kept, so only rows of empty cells are dropped. */
  lemma {:induction false} RowsWithContentKeeps(rows: seq<seq<string>>)
    ensures forall i :: 0 <= i < |rows| && HasContent(rows[i]) ==> rows[i] in RowsWithContent(rows)
    decreases |rows|
  {
    if rows != [] {
      RowsWithContentKeeps(rows[..|rows| - 1]);
    }
  }

  /** Every data row holds a non-empty cell, and every filtered row that does is kept. */
  lemma DataRowsShape(rawData: seq<seq<string>>)
    requires |rawData| > HeaderRowIndex
    ensures forall k :: 0 <= k < |DataRows(rawData)| ==> HasContent(DataRows(rawData)[k])
    ensures forall i :: HeaderRowIndex < i < |rawData| && HasContent(FilterAndCleanRow(rawData[i])) ==>
      FilterAndCleanRow(rawData[i]) in DataRows(rawData)
  {
    RowsWithContentSpec(CleanAll(rawData[HeaderRowIndex + 1..]));
    forall i | HeaderRowIndex < i < |rawData| && HasContent(FilterAndCleanRow(rawData[i]))
      ensures FilterAndCleanRow(rawData[i]) in DataRows(rawData)
    {
      DataRowKept(rawData, i);
    }
  }

  lemma DataRowKept(rawData: seq<seq<string>>, i: nat)
    requires HeaderRowIndex < i < |rawData| && HasContent(FilterAndCleanRow(rawData[i]))
    ensures FilterAndCleanRow(rawData[i]) in DataRows(rawData)
  {
    var rest := rawData[HeaderRowIndex + 1..];
    var cleaned := CleanAll(rest);
    var j := i - (HeaderRowIndex + 1);
    SliceAt(rawData, HeaderRowIndex + 1, i);
    assert cleaned[j] == FilterAndCleanRow(rest[j]);
    RowsWithContentKeeps(cleaned);
  }

  lemma SliceAt<T>(s: seq<T>, lo: nat, i: nat)
    requires lo <= i < |s|
    ensures s[lo..][i - lo] == s[i]
  {
  }
}
