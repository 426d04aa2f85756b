# Bank-statement CSV processor: a verified Dafny model

This project models the core of a browser application that ingests a
bank-statement CSV export, normalises it into a clean table, adds a per-person
`Total` column, and shows the table in a virtualised grid with selection,
deletion and undo/redo.

The model covers four source files:

- **CSV processor** (`src/utils/csvProcessor.js`):
  - the line tokenizer `parseCSV`;
  - cell cleaning `cleanCellData`;
  - header normalisation `processHeaders`;
  - row projection `filterAndCleanRow`;
  - the pipeline `processCSVData`, with its error cases and its sort by person name;
  - `addGrandTotalColumn`;
  - the text and download name that `exportToCSV` produces.
- **Table store** (`src/stores/csvStore.js`): the state machine over the table, the two selection sets, the sort configuration and the bounded undo history.
- **Data grid** (`src/components/DataGrid.jsx`): column widths, the view-level sort comparator, the sort-direction toggle, and the row and column windows that decide which cells are drawn.
- **File upload** (`src/components/FileUpload.jsx`): `validateFile` and the first-file rule of `handleFiles`.

Modules, one per file:

| module | file | contents |
|---|---|---|
| `Base` | base.dfy | `Option`, `Result`, `Min`, `Max` |
| `Text` | text.dfy | JavaScript `trim` whitespace, ASCII `toLowerCase`, `split`/`join`, `lastIndexOf`, decimal rendering of naturals |
| `CsvTokenizer` | tokenizer.dfy | `parseCSV`: a token-level specification (`Lex`, `RawFields`, `Parse`) and the character loop (`ParseLine`, `ParseCsv`) proved equal to it |
| `CellCleaner` | cleaner.dfy | `cleanCellData` as a function and as the source's two `while` loops |
| `Positions` | positions.dfy | dropping a set of positions from a sequence, and `splice(i, 1)` |
| `ColumnFilter` | columns.dfy | the ignored columns 0, 4, 6 and `filterAndCleanRow` |
| `HeaderNormalizer` | headers.dfy | `processHeaders`: the count-map loop and the occurrence-count specification it meets |
| `StableSort` | sorting.dfy | `Array.prototype.sort` with a comparator, as a stable insertion sort, with permutation, ordering and stability lemmas |
| `PersonSort` | keysort.dfy | the automatic sort by lower-cased person name |
| `GrandTotal` | grandtotal.dfy | `addGrandTotalColumn`: grouping map, per-group sums, and the totals written in place into an array of rows |
| `CsvPipeline` | pipeline.dfy | `processCSVData` |
| `CsvExport` | export.dfy | export text, cell quoting, download name, and the export-then-parse round trip |
| `StoreSpec` | store_spec.dfy | the store's state as a value, each action as a function, and the history lemmas |
| `TableStore` | store.dfy | class `CsvStore`, whose methods update its fields in place and are proved against `StoreSpec` |
| `GridView` | grid.dfy | the data grid's arithmetic |
| `FileUpload` | upload.dfy | file validation |

Abstractions:

- `parseFloat` is a parameter `parse`:
  - for the grand total, `parse: string -> Option<int>` gives an amount in cents, or `None` for `NaN`;
  - for the grid comparator, `parse: string -> Option<real>`.
- `toFixed(2)` is a parameter `format: int -> string`.
- `localeCompare` on lower-cased strings is code-point lexicographic order (`PersonSort.LexLe`).
- The clock value in the export is a parameter `generated`.

## Model

| member | source | states |
|---|---|---|
| CsvTokenizer.Lex | src/utils/csvProcessor.js:13-36 | the token reading of one line: `""` inside quotes is a literal quote, any other `"` flips the quoted state, an unquoted comma is a separator; its properties are `EscapedQuoteInQuotes`, `LoneQuoteFlips`, `CommaInQuotes` and `RawFieldsCount` |
| CsvTokenizer.Parse | src/utils/csvProcessor.js:5-40 | the rows of the text, one per non-blank line; `ParseCsv` is proved to return it and `FieldsOfLines` states its shape |
| CsvTokenizer.ParseCsv | src/utils/csvProcessor.js:5-40 | the line loop returns `Parse(text)`: one row per line of the `\n` split that is non-blank after trimming, in order |
| CsvTokenizer.ParseLine | src/utils/csvProcessor.js:13-36 | the character loop with the `inQuotes` flag returns exactly the trimmed fields that `Lex`/`RawFields` specify |
| CsvTokenizer.FieldsOfLines | src/utils/csvProcessor.js:9-37 | one row per kept line, row `k` being the fields of line `k` |
| CsvTokenizer.LineFieldsShape | src/utils/csvProcessor.js:27-35 | a row has one more field than the line has unquoted commas, and every field is trimmed |
| CsvTokenizer.RawFieldsCount | src/utils/csvProcessor.js:27-35 | a token sequence splits into separator count + 1 fields |
| CsvTokenizer.EscapedQuoteInQuotes | src/utils/csvProcessor.js:20-23 | inside quotes, `""` yields one literal `"` and leaves the quoted state unchanged |
| CsvTokenizer.LoneQuoteFlips | src/utils/csvProcessor.js:20-26 | any other `"` yields nothing and flips the quoted state |
| CsvTokenizer.CommaInQuotes | src/utils/csvProcessor.js:27-32 | a comma inside quotes is a literal character, not a separator |
| Text.Trim | src/utils/csvProcessor.js:10 | the result has no leading or trailing whitespace and is the contiguous piece of the input after its leading whitespace |
| Text.TrimCutsWhitespace | src/utils/csvProcessor.js:10 | every character `trim` removes is whitespace |
| Text.TrimOfTrimmed | src/utils/csvProcessor.js:186 | trimming a trimmed string changes nothing |
| Text.SplitJoin | src/utils/csvProcessor.js:273 | splitting at `\n` undoes joining with `\n` when no part holds a newline |
| Text.LastIndexOf | src/components/FileUpload.jsx:18 | -1 or the position of the last occurrence, with no occurrence after it |
| Text.ToLower | src/utils/csvProcessor.js:113-114 | lower-casing maps each character and keeps the length |
| CellCleaner.CleanCellData | src/utils/csvProcessor.js:183-199 | `''` for a missing cell, otherwise `Clean` of the cell's text |
| CellCleaner.StripLeadingNoise | src/utils/csvProcessor.js:189-191 | the first loop removes exactly the leading run of `=` and `"` |
| CellCleaner.StripTrailingQuotes | src/utils/csvProcessor.js:194-196 | the second loop removes exactly the trailing run of `"` |
| CellCleaner.Clean | src/utils/csvProcessor.js:186-198 | a cleaned cell is trimmed and never longer than the input |
| CellCleaner.CleanIsInfix | src/utils/csvProcessor.js:186-198 | a cleaned cell is a contiguous substring of the input |
| CellCleaner.CleanKeepsPlain | src/utils/csvProcessor.js:186-198 | a trimmed cell that neither starts with `=`/`"` nor ends with `"` is returned unchanged |
| CellCleaner.CleanNotIdempotent | src/utils/csvProcessor.js:186-198 | `= "x` cleans to `"x`, which cleans to `x`: cleaning twice can differ from cleaning once |
| ColumnFilter.KeptIndexOrder | src/utils/csvProcessor.js:1 | the kept raw positions are strictly increasing and every non-ignored position is one of them |
| ColumnFilter.DropIgnoredShape | src/utils/csvProcessor.js:135 | dropping positions 0, 4, 6 leaves the row length minus the ignored positions below it, the k-th kept cell being the raw cell at the k-th kept position |
| ColumnFilter.FilterAndCleanRow | src/utils/csvProcessor.js:177-181 | the width is the raw width minus the ignored positions below it, and cell `k` is the cleaned raw cell at the k-th kept position |
| HeaderNormalizer.ProcessHeaders | src/utils/csvProcessor.js:131-175 | original headers are the input; one header per kept position, in order; the header at `k` is its base name, numbered `_n` when it is the n-th occurrence of that base name (n >= 2) |
| HeaderNormalizer.NormalizedHeadersAre | src/utils/csvProcessor.js:142-172 | the occurrence-numbered base names are the headers `processHeaders` returns |
| HeaderNormalizer.Fallback | src/utils/csvProcessor.js:155 | `Column_n` is a non-empty identifier starting with `C` |
| HeaderNormalizer.Sanitize | src/utils/csvProcessor.js:150 | same length, only `[A-Za-z0-9_]`, a character kept exactly when it is already allowed |
| HeaderNormalizer.StripUnderscores | src/utils/csvProcessor.js:151 | the result is the contiguous piece after the leading underscores, neither starts nor ends with `_`, and every character cut before or after it is `_` |
| HeaderNormalizer.Truncate | src/utils/csvProcessor.js:152 | a prefix of the input: the whole string when it has at most 30 characters, otherwise exactly its first 30 |
| HeaderNormalizer.Finish | src/utils/csvProcessor.js:149-156 | a non-empty identifier not starting with `_`, at most 30 characters long unless it is the fallback |
| HeaderNormalizer.HeaderShape | src/utils/csvProcessor.js:145-167 | every returned header is a non-empty identifier not starting with `_`, and its base name is at most 30 characters or the fallback |
| HeaderNormalizer.NumberedShape | src/utils/csvProcessor.js:159-165 | a numbered header keeps its base as a prefix and stays an identifier |
| HeaderNormalizer.FirstOccurrenceKeepsName | src/utils/csvProcessor.js:159-165 | a header keeps its base name exactly when no earlier header has the same base name |
| HeaderNormalizer.NumberingCollides | src/utils/csvProcessor.js:159-165 | base names `a, a, a_2` become `a, a_2, a_2`: headers are not guaranteed unique |
| HeaderNormalizer.PlainBase | src/utils/csvProcessor.js:146-156 | a non-empty identifier of at most 30 characters that neither starts nor ends with `_` is its own base name |
| CsvPipeline.Message | src/utils/csvProcessor.js:82-107 | the texts of the four thrown errors, with the required and the found row count in the second |
| CsvPipeline.ProcessCsvData | src/utils/csvProcessor.js:80-129 | the four errors in the source's order; on success: raw data and original headers kept, headers normalised plus `Total`, rows the cleaned non-empty data rows, sorted by person when more than 3 headers, each with its `Total` cell when there are at least 6 headers |
| CsvPipeline.RowsWithContentSpec | src/utils/csvProcessor.js:103 | the filter keeps only rows with a non-empty cell, all from its input |
| CsvPipeline.RowsWithContentKeeps | src/utils/csvProcessor.js:103 | every row with a non-empty cell is kept |
| CsvPipeline.DataRowsShape | src/utils/csvProcessor.js:100-103 | every data row has content, and every row after row 11 whose cleaned projection has content is among them |
| StableSort.SortPermutes | src/utils/csvProcessor.js:112-116 | the sorted rows are a permutation of the input, whatever the comparator |
| StableSort.SortSorted | src/utils/csvProcessor.js:112-116 | for a comparator that is a total preorder on the input, the result is ordered |
| StableSort.SortTies | src/utils/csvProcessor.js:112-116 | stability: the elements equivalent to any `p` keep their relative order |
| StableSort.InsertTies | src/utils/csvProcessor.js:112-116 | inserting `x` puts it behind every element already equivalent to `p` |
| PersonSort.LexLeTotal | src/utils/csvProcessor.js:115 | the string order is total |
| PersonSort.LexLeTrans | src/utils/csvProcessor.js:115 | the string order is transitive |
| PersonSort.LexLeAntisym | src/utils/csvProcessor.js:115 | the string order is antisymmetric |
| PersonSort.NameOrderIsPreorder | src/utils/csvProcessor.js:112-116 | the person-name comparator is a total preorder on rows |
| PersonSort.TiesAreSameKey | src/utils/csvProcessor.js:112-116 | two rows compare equal exactly when their lower-cased names are equal |
| PersonSort.WithKey | src/utils/csvProcessor.js:113 | the rows with a given key all carry that key |
| PersonSort.SortByPersonSpec | src/utils/csvProcessor.js:109-118 | the automatic sort is a permutation, ordered by lower-cased column 3, and stable among rows with the same key |
| GrandTotal.AddGrandTotalColumn | src/utils/csvProcessor.js:201-242 | headers gain a trailing `Total`; with fewer than 6 headers the rows are returned unchanged; otherwise each row gains exactly one cell, the group sum on the last row of its group and `''` elsewhere |
| GrandTotal.GroupRows | src/utils/csvProcessor.js:210-217 | the loop builds the grouping map and its key order as specified |
| GrandTotal.GroupsMapDomain | src/utils/csvProcessor.js:210-217 | the map has an entry exactly for each key seen |
| GrandTotal.GroupsMapValues | src/utils/csvProcessor.js:210-217 | each entry lists the positions of that key's rows and is non-empty |
| GrandTotal.KeysInOrderDistinct | src/utils/csvProcessor.js:210-217 | the map visits each key once |
| GrandTotal.KeysInOrderCover | src/utils/csvProcessor.js:210-217 | every row's key is visited |
| GrandTotal.IndicesMembers | src/utils/csvProcessor.js:211-216 | a position is in a group's list exactly when its row has that key |
| GrandTotal.IndicesIncreasing | src/utils/csvProcessor.js:211-216 | a group's positions are strictly increasing |
| GrandTotal.SumGroup | src/utils/csvProcessor.js:223-230 | the inner loop returns the group's amount sum and its last position (-1 for an empty group) |
| GrandTotal.SumAtIndices | src/utils/csvProcessor.js:226-228 | adding the amounts over a group's positions gives the group sum |
| GrandTotal.LastOfGroup | src/utils/csvProcessor.js:229-234 | the largest position of a group is its last row, and no other row of the group is |
| GrandTotal.TotalCell | src/utils/csvProcessor.js:218-236 | the `Total` cell of row `i`: the formatted group sum on the last row of its group, `''` elsewhere; `OneTotalPerGroup` and `LastOfGroup` state its properties |
| GrandTotal.OneTotalPerGroup | src/utils/csvProcessor.js:219-236 | the non-empty `Total` cells are exactly the last rows of the groups, and there are as many as distinct keys |
| GrandTotal.LastRowsDistinctKeys | src/utils/csvProcessor.js:222-236 | no two total rows share a key |
| GrandTotal.LastRowsCoverKeys | src/utils/csvProcessor.js:222-236 | every key has a total row |
| CsvExport.EscapeCell | src/utils/csvProcessor.js:264-269 | a cell holding `,`, `"` or a newline is quoted with its `"` doubled, any other is kept; `LexEscaped` states that the parser reads it back |
| CsvExport.EncodeRow | src/utils/csvProcessor.js:263-271 | the escaped cells joined by `,`; `LineRoundTrip` states that the parser recovers the row |
| CsvExport.ExportContent | src/utils/csvProcessor.js:252-273 | the export text; `ExportLayout` and `ExportParseRoundTrip` state its properties |
| CsvExport.ExportLayout | src/utils/csvProcessor.js:253-273 | the text splits into 6 + rows lines: four metadata lines, a blank line, the header line, then one encoded line per row |
| CsvExport.NoNewlineInEncoded | src/utils/csvProcessor.js:263-271 | an encoded row holds no newline when its cells hold none |
| CsvExport.NoNewlineInEscaped | src/utils/csvProcessor.js:264-269 | quoting adds no newline |
| CsvExport.LexPlain | src/utils/csvProcessor.js:270 | an unquoted cell without `,` or `"` is read back as its own characters |
| CsvExport.LexDoubled | src/utils/csvProcessor.js:268 | inside quotes, a cell with its `"` doubled is read back as the cell's characters |
| CsvExport.LexEscaped | src/utils/csvProcessor.js:264-269 | an escaped cell followed by a comma or the line end is read back as its characters, whether quoted or not |
| CsvExport.LexEncoded | src/utils/csvProcessor.js:263-271 | an encoded row lexes to the cells' characters separated by one separator token per cell boundary |
| CsvExport.FieldsOfCellTokens | src/utils/csvProcessor.js:263-271 | those tokens split back into the cells |
| CsvExport.LineRoundTrip | src/utils/csvProcessor.js:263-271 | `parseCSV`'s line reader recovers any non-empty row of trimmed cells from its encoded line |
| CsvExport.EncodedLineShape | src/utils/csvProcessor.js:263-271 | an encoded row other than a single empty cell is non-blank and trimmed, so the parser keeps it |
| CsvExport.HeaderLineBack | src/utils/csvProcessor.js:261 | the unquoted header line reads back as the headers when no header needs quoting |
| CsvExport.MetadataKept | src/utils/csvProcessor.js:254-259 | of the first five lines the parser keeps the four metadata lines and drops the blank one |
| CsvExport.ExportParseRoundTrip | src/utils/csvProcessor.js:252-273 | parsing the export gives 5 + rows rows: four metadata rows, then the headers, then every data row unchanged |
| CsvExport.StripExtension | src/utils/csvProcessor.js:280 | the name without a final extension that has no `/`; `ReplacesExtension` and `KeepsDotlessName` state its properties |
| CsvExport.DownloadName | src/utils/csvProcessor.js:280 | the download name, the stripped name plus `_processed.csv`; `ReplacesExtension` and `KeepsDotlessName` state its properties |
| CsvExport.ReplacesExtension | src/utils/csvProcessor.js:280 | a final extension without `/` is replaced by `_processed.csv` |
| CsvExport.KeepsDotlessName | src/utils/csvProcessor.js:280 | a name without `.` just gains `_processed.csv` |
| Positions.Splice | src/stores/csvStore.js:184 | `splice(i, 1)` at an existing `i` shortens by one, keeps the elements before `i` in place and moves each later one down by one; past the end it changes nothing |
| Positions.SpliceStep | src/stores/csvStore.js:180-185 | splicing positions in decreasing order removes them one after another from the original row |
| Positions.WithoutMembers | src/stores/csvStore.js:183-185 | every kept position's element survives, and every survivor comes from a kept position |
| Positions.WithoutIgnoresOutOfRange | src/stores/csvStore.js:184 | positions beyond the end have no effect |
| Positions.WithoutLength | src/stores/csvStore.js:183-185 | the length drops by the number of existing positions removed |
| Positions.KeptPositionsSpec | src/stores/csvStore.js:183-185 | the kept positions are exactly those below the length that are not removed, strictly increasing |
| Positions.KeepPrefixPositions | src/stores/csvStore.js:183-185 | the `k`-th element left among the first `n` is the element at the `k`-th kept position below `n` |
| Positions.WithoutPositions | src/stores/csvStore.js:183-185 | the `k`-th element left is the element at the `k`-th kept position |
| TableStore.CsvStore.constructor | src/stores/csvStore.js:7-29 | the initial state: empty table, empty selections, no sort, empty history, index -1 |
| TableStore.CsvStore.SetData | src/stores/csvStore.js:36-61 | the state becomes `StoreSpec.SetData` of the old one, and the store invariant holds |
| TableStore.CsvStore.SelectRows | src/stores/csvStore.js:70-72 | only the row selection changes, to the given indices |
| TableStore.CsvStore.SelectColumns | src/stores/csvStore.js:74-76 | only the column selection changes, to the given indices |
| TableStore.CsvStore.ToggleRowSelection | src/stores/csvStore.js:78-103 | only the row selection changes, to `Toggle` of the old one |
| TableStore.CsvStore.ToggleColumnSelection | src/stores/csvStore.js:105-130 | only the column selection changes, to `Toggle` of the old one |
| TableStore.CsvStore.SelectAllRows | src/stores/csvStore.js:132-136 | only the row selection changes, to `{0 .. rows-1}` |
| TableStore.CsvStore.SelectAllColumns | src/stores/csvStore.js:138-142 | only the column selection changes, to `{0 .. headers-1}` |
| TableStore.CsvStore.ClearSelections | src/stores/csvStore.js:144-146 | both selections become empty and nothing else changes |
| TableStore.CsvStore.SetSortConfig | src/stores/csvStore.js:149-151 | only the sort configuration changes |
| TableStore.CsvStore.AddToHistory | src/stores/csvStore.js:154-174 | the state becomes `StoreSpec.AddToHistory` of the old one, and the invariant is kept |
| TableStore.CsvStore.DeleteRows | src/stores/csvStore.js:176-191 | the history step, then the splices in decreasing index order, give `StoreSpec.DeleteRows` of the old state |
| TableStore.CsvStore.DeleteColumns | src/stores/csvStore.js:193-213 | the history step, then the splices of headers and of every row, give `StoreSpec.DeleteColumns` of the old state |
| TableStore.CsvStore.CanUndo | src/stores/csvStore.js:216-219 | true exactly when `historyIndex > 0` |
| TableStore.CsvStore.CanRedo | src/stores/csvStore.js:221-224 | true exactly when `historyIndex < history.length - 1` |
| TableStore.CsvStore.Undo | src/stores/csvStore.js:226-240 | the state becomes `StoreSpec.Undo` of the old one, and the invariant is kept |
| TableStore.CsvStore.Redo | src/stores/csvStore.js:242-256 | the state becomes `StoreSpec.Redo` of the old one, and the invariant is kept |
| TableStore.CsvStore.Reset | src/stores/csvStore.js:259-276 | the state becomes the empty store |
| TableStore.ToggledSelection | src/stores/csvStore.js:78-103 | the toggle computation, range loop included, returns `Toggle` |
| TableStore.AddRange | src/stores/csvStore.js:88-90 | the range loop adds exactly `start .. end` |
| StoreSpec.SetData | src/stores/csvStore.js:36-61 | the store after loading a table; `SetDataStartsHistory` states its properties |
| StoreSpec.Toggle | src/stores/csvStore.js:78-103 | the selection after a click; `ToggleCases` and `MultiToggleTwice` state its properties |
| StoreSpec.AddToHistory | src/stores/csvStore.js:154-174 | the store after recording the current table; `AddToHistorySpec` states its properties |
| StoreSpec.DeleteRows | src/stores/csvStore.js:176-191 | the store after deleting rows; `DeleteRowsSpec` states its properties |
| StoreSpec.DeleteColumns | src/stores/csvStore.js:193-213 | the store after deleting columns; `DeleteColumnsSpec` states its properties |
| StoreSpec.Undo | src/stores/csvStore.js:226-240 | the store after an undo; `UndoSpec` and `UndoSteps` state its properties |
| StoreSpec.Redo | src/stores/csvStore.js:242-256 | the store after a redo; `RedoSpec` and `RedoRestoresPreviousTable` state its properties |
| StoreSpec.IntervalMembers | src/stores/csvStore.js:134 | `{lo .. hi-1}` holds exactly the integers in that range |
| StoreSpec.Largest | src/stores/csvStore.js:84 | `Math.max` of a non-empty selection is a member bounding all others |
| StoreSpec.Descending | src/stores/csvStore.js:180 | the indices sorted with `b - a` list the set exactly, strictly decreasing |
| StoreSpec.SetDataStartsHistory | src/stores/csvStore.js:36-61 | after loading, the history is one `file_loaded` entry of the table, selections and sort are cleared, and undo and redo are no-ops |
| StoreSpec.ResetEmptiesHistory | src/stores/csvStore.js:259-276 | after reset nothing can be undone or redone |
| StoreSpec.ToggleCases | src/stores/csvStore.js:78-103 | range on a non-empty selection adds exactly the indices between its maximum and `i`; multi flips only `i`; otherwise the selection is `{i}` |
| StoreSpec.MultiToggleTwice | src/stores/csvStore.js:91-96 | two multi clicks on the same index cancel out |
| StoreSpec.AddToHistorySpec | src/stores/csvStore.js:154-174 | the redo branch is dropped, the newest entry is the current table, at most 20 entries remain with the index on the last, older entries are kept (shifted by one when the oldest is dropped), and nothing else changes |
| StoreSpec.DeleteRowsSpec | src/stores/csvStore.js:176-191 | exactly the existing listed rows go, out-of-range indices are ignored, the `k`-th remaining row is the row at the `k`-th unlisted position, headers stay, only the row selection is cleared, and the previous table is recorded |
| StoreSpec.DeleteColumnsSpec | src/stores/csvStore.js:193-213 | the listed existing positions leave the headers and every row, a rectangular table stays rectangular, and only the column selection is cleared |
| StoreSpec.UndoSpec | src/stores/csvStore.js:226-240 | a no-op when `historyIndex <= 0`; otherwise the index moves down one, that entry's table is loaded and both selections are cleared |
| StoreSpec.RedoSpec | src/stores/csvStore.js:242-256 | a no-op at the newest entry; otherwise the index moves up one, that entry's table is loaded and both selections are cleared |
| StoreSpec.ApplyDeletes | src/stores/csvStore.js:176-213 | a sequence of deletions keeps the history invariant |
| StoreSpec.DeleteSpec | src/stores/csvStore.js:176-213 | a deletion records exactly what `addToHistory` records |
| StoreSpec.DeletesHistory | src/stores/csvStore.js:154-213 | after N deletions the history is the old one plus the N tables before each deletion |
| StoreSpec.UndoSteps | src/stores/csvStore.js:226-240 | k undos move the index down k and load the entry there |
| StoreSpec.UndoAllDeletes | src/stores/csvStore.js:49-240 | after loading and N deletions (N + 1 <= 20), N undos give back the loaded table, with nothing left to undo |
| StoreSpec.UndoSkipsIntermediate | src/stores/csvStore.js:154-240 | after two deletions one undo loads the table from before the first, not the one between |
| StoreSpec.RedoRestoresPreviousTable | src/stores/csvStore.js:154-256 | redo after undo of a deletion loads the table from before the deletion, not its result |
| GridView.ColumnWidths | src/components/DataGrid.jsx:28-36 | one width per header, all equal, each between 80 and 150 |
| GridView.ColumnWidthsFill | src/components/DataGrid.jsx:31-35 | when the even share is between 80 and 150, the widths add up to the available width |
| GridView.Compare | src/components/DataGrid.jsx:44-59 | the view comparator; `CompareSpec`, `NumericPreorder` and `TextPreorder` state its properties |
| GridView.ViewRows | src/components/DataGrid.jsx:39-60 | the rows as shown; `ViewRowsPermutes`, `NumericColumnSorted` and `TextColumnSorted` state its properties |
| GridView.CompareSpec | src/components/DataGrid.jsx:44-59 | numeric order when both cells parse, otherwise lower-cased string order; `desc` negates; swapping the arguments negates |
| GridView.ViewRowsPermutes | src/components/DataGrid.jsx:39-44 | no sort configuration gives the stored rows; any other gives a permutation of them |
| GridView.NumericPreorder | src/components/DataGrid.jsx:49-53 | on a column of numbers the comparator is a total preorder |
| GridView.TextPreorder | src/components/DataGrid.jsx:56-58 | on a column without numbers the comparator is a total preorder |
| GridView.NumericColumnSorted | src/components/DataGrid.jsx:44-59 | a column of numbers is shown in numeric order, ascending or descending |
| GridView.TextColumnSorted | src/components/DataGrid.jsx:44-59 | a column without numbers is shown in lower-cased string order, ascending or descending |
| GridView.HandleSort | src/components/DataGrid.jsx:83-87 | the clicked column is sorted descending exactly when it was sorted ascending, otherwise ascending |
| GridView.HandleSortAlternates | src/components/DataGrid.jsx:83-87 | clicking the same column alternates the direction with period two |
| GridView.StartRow | src/components/DataGrid.jsx:64 | the first row of the window, `floor(scrollTop / 35)`; `RowWindowCovers` states its properties |
| GridView.EndRow | src/components/DataGrid.jsx:63-65 | the end of the row window, at most the row count; `RowWindowCovers` states its properties |
| GridView.RowWindowCovers | src/components/DataGrid.jsx:62-65 | the row window lies in the table and holds every row whose band meets the visible band |
| GridView.Leftmost | src/components/DataGrid.jsx:71-79 | the first column whose right edge passes `scrollLeft`, with no earlier one passing it |
| GridView.LeftmostUnique | src/components/DataGrid.jsx:71-79 | those properties determine the first visible column |
| GridView.StartCol | src/components/DataGrid.jsx:71-79 | the scan with early exit returns the first visible column, or 0 when none passes |
| GridView.FirstVisibleColumn | src/components/DataGrid.jsx:71-79 | the first column whose right edge passes `scrollLeft`, or 0; `StartCol` is proved to return it and `Leftmost` states its properties |
| GridView.EndCol | src/components/DataGrid.jsx:69-81 | the end of the column window; `ColumnWindowBounds` and `ColumnWindowUnderCovers` state its properties |
| GridView.ColumnWindowBounds | src/components/DataGrid.jsx:67-81 | the column window lies in the table and is non-empty when there are columns |
| GridView.ColumnWindowUnderCovers | src/components/DataGrid.jsx:69-81 | with 20 columns in a 1000-wide grid the window ends at column 10, which is still visible at 850 |
| GridView.RenderedCells | src/components/DataGrid.jsx:182-219 | every drawn cell lies in the table, and every cell of a visible row inside the column window is drawn |
| FileUpload.ValidateFile | src/components/FileUpload.jsx:9-24 | the validation result; `ValidateFileSpec` states its properties |
| FileUpload.Extension | src/components/FileUpload.jsx:18 | the lower-cased suffix from the last `.`; `ExtensionAfterLastDot` states its properties |
| FileUpload.ValidateFileSpec | src/components/FileUpload.jsx:9-24 | size error exactly above 50 MiB; type error exactly when size is fine and neither MIME type nor extension is valid; accepted exactly otherwise |
| FileUpload.ExtensionAfterLastDot | src/components/FileUpload.jsx:18 | the extension is the lower-cased suffix from the last `.` |
| FileUpload.DotlessNameNeedsType | src/components/FileUpload.jsx:18-21 | a name without `.` yields its lower-cased last character, so it is accepted only by MIME type |
| FileUpload.LastDotOfLower | src/components/FileUpload.jsx:18 | lower-casing does not move the last `.` |
| FileUpload.ExtensionIgnoresCase | src/components/FileUpload.jsx:18-21 | the extension and the verdict do not depend on the case of the name |
| FileUpload.HandleFiles | src/components/FileUpload.jsx:26-40 | an empty list is ignored; otherwise only the first file is validated, rejected with the validation message or selected |
| FileUpload.OnlyFirstFileCounts | src/components/FileUpload.jsx:29-32 | files after the first never change the outcome |

## Left out

- Reading the file (`FileReader`, the promise in `processCSVFile`, its own 50 MB check and `formatFileSize`): asynchronous I/O and display text.
- The export's side effects (Blob, link element, click, URL revocation): DOM I/O. The clock value is the parameter `generated`.
- The `warnings` list that `processHeaders`, `processCSVData` and `addGrandTotalColumn` append to: free-form messages that do not affect the table.
- The store's `fileName`, `fileSize`, `isLoading`, `error`, `warnings` fields and `setFile`, `setLoading`, `setError`, `setWarnings`: plain field assignments with no logic. History timestamps (`Date.now()`) are not modelled.
- Floating point: `parseFloat` is an abstract parse, to cents for the totals and to reals in the grid comparator. Sums are exact integers, not IEEE sums. `toFixed(2)` is an abstract formatter. Column widths are exact reals.
- `localeCompare` is code-point lexicographic order, and `toLowerCase` is ASCII only. JavaScript strings are UTF-16 code units; the model uses Dafny characters.
- Indices are natural numbers: a negative index given to `deleteRows` or `deleteColumns` (where `splice(-1, 1)` would remove the last element) is not modelled.
- The engine's sort algorithm is not visible. The model uses the stable insertion sort that ECMAScript's stability requirement pins down for a consistent comparator.
- GridView.ViewRowsPermutes: for a column that mixes numbers and text the comparator is not a consistent order, so only the permutation is stated.
- `sortedData` copies the rows before sorting; the model computes the view as a value, so the fact that the store's rows are not mutated holds by construction rather than being proved about aliasing.
- Rendering (JSX, styles, animation), scroll state, click and keyboard handlers: UI only.
- The following are source behaviours, reproduced as written:
  - undo after two deletions skips the intermediate table, and redo after undo loads the table from before the deletion (`StoreSpec.UndoSkipsIntermediate`, `StoreSpec.RedoRestoresPreviousTable`);
  - the column window can miss visible columns (`GridView.ColumnWindowUnderCovers`);
  - a file name without `.` yields its last character as extension (`FileUpload.DotlessNameNeedsType`);
  - cleaning is not idempotent (`CellCleaner.CleanNotIdempotent`);
  - headers can repeat (`HeaderNormalizer.NumberingCollides`);
  - data rows are not padded to the header width;
  - with fewer than 6 headers `Total` is added to the headers but not to the rows.
