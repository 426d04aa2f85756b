/**
 * The text `exportToCSV` builds, and the name it offers for the download.
 * The main result is that the tokenizer reads the exported text back: the
 * metadata lines become four one-field rows, the blank line disappears, and
 * the header line and the data lines come back unchanged.
 */
module CsvExport {
  import opened Text
  import opened CsvTokenizer

  /** A cell is quoted when it contains a comma, a double quote or a newline. */
  predicate NeedsQuoting(cell: string) {
    ',' in cell || '"' in cell || '\n' in cell
  }

  /** `replace(/"/g, '""')`. */
  function DoubleQuotes(s: string): string {
    if s == [] then [] else (if s[0] == '"' then ['"', '"'] else [s[0]]) + DoubleQuotes(s[1..])
  }

  function EscapeCell(cell: string): string {
    if NeedsQuoting(cell) then ['"'] + DoubleQuotes(cell) + ['"'] else cell
  }

  function EscapeAll(row: seq<string>): seq<string> {
    seq(|row|, k requires 0 <= k < |row| => EscapeCell(row[k]))
  }

  /** One data line: escaped cells joined by commas. */
  function EncodeRow(row: seq<string>): string {
    Join(',', EscapeAll(row))
  }

  function EncodeRows(data: seq<seq<string>>): seq<string> {
    seq(|data|, k requires 0 <= k < |data| => EncodeRow(data[k]))
  }

  const Title: string := "# Bank Statement CSV Export"

  /** The lines of the export; `generated` is the ISO time stamp the source reads from the clock. */
  function ExportLines(data: seq<seq<string>>, headers: seq<string>, generated: string): seq<string> {
    [ Title,
      "# Generated: " + generated,
      "# Rows: " + NatToString(|data|),
      "# Columns: " + NatToString(|headers|),
      "",
      Join(',', headers) ]
    + EncodeRows(data)
  }

  function ExportContent(data: seq<seq<string>>, headers: seq<string>, generated: string): string {
    Join('\n', ExportLines(data, headers, generated))
  }

  /** `fileName.replace(/\.[^/.]+$/, '')`: drop a final extension that has no `/` in it. */
  function StripExtension(name: string): string {
    var p := LastIndexOf(name, '.');
    if 0 <= p < |name| - 1 && '/' !in name[p + 1..] then name[..p] else name
  }

  const ProcessedSuffix: string := "_processed.csv"

  function DownloadName(fileName: string): string {
    StripExtension(fileName) + ProcessedSuffix
  }

  // ---------------------------------------------------------------------------
  // File name

  /** A name with a final extension gets that extension replaced by the suffix. */
  lemma ReplacesExtension(base: string, ext: string)
    requires ext != [] && '.' !in ext && '/' !in ext
    ensures DownloadName(base + ['.'] + ext) == base + ProcessedSuffix
  {
    var name := base + ['.'] + ext;
    var p := LastIndexOf(name, '.');
    assert name[|base|] == '.';
    assert forall k :: |base| < k < |name| ==> name[k] == ext[k - |base| - 1];
    assert forall x :: x in ext ==> x != '.';
    assert p == |base|;
    assert name[p + 1..] == ext;
    assert name[..p] == base;
  }

  /** A name without any dot only gains the suffix. */
  lemma KeepsDotlessName(name: string)
    requires '.' !in name
    ensures DownloadName(name) == name + ProcessedSuffix
  {
    assert forall k :: 0 <= k < |name| ==> name[k] != '.';
  }

  // ---------------------------------------------------------------------------
  // Lines of the export

  lemma NoNewlineInEncoded(row: seq<string>)
    requires forall k :: 0 <= k < |row| ==> '\n' !in row[k]
    ensures '\n' !in EncodeRow(row)
  {
    forall k | 0 <= k < |row| ensures '\n' !in EscapeAll(row)[k] {
      NoNewlineInEscaped(row[k]);
    }
    JoinAvoids(',', EscapeAll(row), '\n');
  }

  lemma {:induction false} NoNewlineInDoubled(s: string)
    requires '\n' !in s
    ensures '\n' !in DoubleQuotes(s)
    decreases |s|
  {
    if s != [] {
      assert forall x :: x in s[1..] ==> x in s;
      NoNewlineInDoubled(s[1..]);
    }
  }

  lemma NoNewlineInEscaped(cell: string)
    requires '\n' !in cell
    ensures '\n' !in EscapeCell(cell)
  {
    NoNewlineInDoubled(cell);
  }

  /** The export consists of the four metadata lines, a blank line, the header line and one line per row. */
  lemma ExportLayout(data: seq<seq<string>>, headers: seq<string>, generated: string)
    requires '\n' !in generated
    requires forall k :: 0 <= k < |headers| ==> '\n' !in headers[k]
    requires forall r, k :: 0 <= r < |data| && 0 <= k < |data[r]| ==> '\n' !in data[r][k]
    ensures Split(ExportContent(data, headers, generated), '\n') == ExportLines(data, headers, generated)
    ensures |ExportLines(data, headers, generated)| == 6 + |data|
    ensures ExportLines(data, headers, generated)[4] == ""
    ensures forall r :: 0 <= r < |data| ==> ExportLines(data, headers, generated)[6 + r] == EncodeRow(data[r])
  {
    LinesAvoidNewline(data, headers, generated);
    SplitJoin(ExportLines(data, headers, generated), '\n');
  }

  lemma LinesAvoidNewline(data: seq<seq<string>>, headers: seq<string>, generated: string)
    requires '\n' !in generated
    requires forall k :: 0 <= k < |headers| ==> '\n' !in headers[k]
    requires forall r, k :: 0 <= r < |data| && 0 <= k < |data[r]| ==> '\n' !in data[r][k]
    ensures forall k :: 0 <= k < |ExportLines(data, headers, generated)| ==> '\n' !in ExportLines(data, headers, generated)[k]
  {
    var lines := ExportLines(data, headers, generated);
    forall k | 0 <= k < |lines| ensures '\n' !in lines[k] {
      if k == 1 {
        assert lines[1] == "# Generated: " + generated;
      } else if k == 2 {
        assert lines[2] == "# Rows: " + NatToString(|data|);
      } else if k == 3 {
        assert lines[3] == "# Columns: " + NatToString(|headers|);
      } else if k == 5 {
        JoinAvoids(',', headers, '\n');
      } else if k >= 6 {
        NoNewlineInEncoded(data[k - 6]);
      }
    }
  }

  // ---------------------------------------------------------------------------
  // Reading an encoded line back

  function Literals(s: string): seq<Token> {
    seq(|s|, k requires 0 <= k < |s| => Literal(s[k]))
  }

  /** The tokens of a row: the literals of each cell, separators in between. */
  function CellTokens(row: seq<string>): seq<Token>
    requires row != []
  {
    if |row| == 1 then Literals(row[0])
    else Literals(row[0]) + [Separator] + CellTokens(row[1..])
  }

  /** Characters other than a comma and a quote scan as themselves outside quotes. */
  lemma {:induction false} LexPlain(cell: string, rest: string)
    requires ',' !in cell && '"' !in cell
    ensures Lex(cell + rest, false) == Literals(cell) + Lex(rest, false)
    decreases |cell|
  {
    if cell == [] {
      assert cell + rest == rest;
    } else {
      var s := cell + rest;
      assert cell[0] in cell;
      assert s[0] == cell[0] && s[0] != ',' && s[0] != '"';
      assert s[1..] == cell[1..] + rest;
      assert Lex(s, false) == [Literal(cell[0])] + Lex(cell[1..] + rest, false);
      assert forall x :: x in cell[1..] ==> x in cell;
      LexPlain(cell[1..], rest);
      assert Literals(cell) == [Literal(cell[0])] + Literals(cell[1..]);
    }
  }

  /** Inside quotes, the doubled text of a cell scans as the cell's characters. */
  lemma {:induction false} LexDoubled(cell: string, rest: string)
    ensures Lex(DoubleQuotes(cell) + rest, true) == Literals(cell) + Lex(rest, true)
    decreases |cell|
  {
    if cell == [] {
      assert DoubleQuotes(cell) + rest == rest;
    } else {
      var head := if cell[0] == '"' then ['"', '"'] else [cell[0]];
      var tail := DoubleQuotes(cell[1..]) + rest;
      var first := Literal(cell[0]);
      calc {
        Lex(DoubleQuotes(cell) + rest, true);
        { DoubledFront(cell, rest); }
        Lex(head + tail, true);
        { LexDoubledChar(cell[0], tail); }
        [first] + Lex(tail, true);
        { LexDoubled(cell[1..], rest); }
        [first] + (Literals(cell[1..]) + Lex(rest, true));
        ([first] + Literals(cell[1..])) + Lex(rest, true);
        { LiteralsFront(cell); }
        Literals(cell) + Lex(rest, true);
      }
    }
  }

  lemma DoubledFront(cell: string, rest: string)
    requires cell != []
    ensures DoubleQuotes(cell) + rest
         == (if cell[0] == '"' then ['"', '"'] else [cell[0]]) + (DoubleQuotes(cell[1..]) + rest)
  {
  }

  lemma LiteralsFront(cell: string)
    requires cell != []
    ensures Literals(cell) == [Literal(cell[0])] + Literals(cell[1..])
  {
  }

  /** One doubled character inside quotes scans as that character. */
  lemma LexDoubledChar(c: char, tail: string)
    ensures Lex((if c == '"' then ['"', '"'] else [c]) + tail, true) == [Literal(c)] + Lex(tail, true)
  {
    if c == '"' {
      var s := ['"', '"'] + tail;
      assert s[0] == '"' && s[1] == '"' && |s| > 1;
      assert s[2..] == tail;
    } else {
      var s := [c] + tail;
      assert s[0] == c;
      assert s[1..] == tail;
    }
  }

  /** An escaped cell followed by a comma or by the end of the line scans as the cell's characters. */
  lemma LexEscaped(cell: string, rest: string)
    requires rest == [] || rest[0] == ','
    ensures Lex(EscapeCell(cell) + rest, false) == Literals(cell) + Lex(rest, false)
  {
    if NeedsQuoting(cell) {
      var s := ['"'] + DoubleQuotes(cell) + ['"'] + rest;
      var closing := ['"'] + rest;
      calc {
        Lex(EscapeCell(cell) + rest, false);
        Lex(s, false);
        { assert s[0] == '"' && s[1..] == DoubleQuotes(cell) + closing; }
        Lex(DoubleQuotes(cell) + closing, true);
        { LexDoubled(cell, closing); }
        Literals(cell) + Lex(closing, true);
        { assert closing[0] == '"' && closing[1..] == rest && !(|closing| > 1 && closing[1] == '"'); }
        Literals(cell) + Lex(rest, false);
      }
    } else {
      LexPlain(cell, rest);
    }
  }

  lemma {:induction false} LexEncoded(row: seq<string>)
    requires row != []
    ensures Lex(EncodeRow(row), false) == CellTokens(row)
    decreases |row|
  {
    if |row| == 1 {
      LexEscaped(row[0], []);
      assert EncodeRow(row) + [] == EscapeCell(row[0]);
    } else {
      var parts := EscapeAll(row);
      JoinFront(',', parts);
      assert parts[1..] == EscapeAll(row[1..]);
      var rest := [','] + EncodeRow(row[1..]);
      assert EncodeRow(row) == EscapeCell(row[0]) + rest;
      LexEscaped(row[0], rest);
      assert rest[1..] == EncodeRow(row[1..]);
      LexEncoded(row[1..]);
    }
  }

  lemma {:induction false} FieldsOfLiterals(cell: string)
    ensures RawFields(Literals(cell)) == [cell]
    decreases |cell|
  {
    if cell != [] {
      var c, x := cell[..|cell| - 1], cell[|cell| - 1];
      var t := Literals(c);
      FieldsOfLiterals(c);
      assert RawFields(t) == [] + [c] by {
        assert [] + [c] == [c];
      }
      LiteralStep(t, [], c, x);
      assert Literals(cell) == t + [Literal(x)] by {
        assert forall k :: 0 <= k < |c| ==> Literals(cell)[k] == t[k];
      }
      assert [] + [c + [x]] == [cell] by {
        assert c + [x] == cell;
      }
    }
  }

  lemma {:induction false} FieldsAfterSeparator(t: seq<Token>, cell: string)
    ensures RawFields(t + [Separator] + Literals(cell)) == RawFields(t) + [cell]
    decreases |cell|
  {
    if cell == [] {
      assert t + [Separator] + Literals(cell) == t + [Separator];
      SeparatorStep(t, RawFields(t)[..|RawFields(t)| - 1], RawFields(t)[|RawFields(t)| - 1]) by {
        RawFieldsNonEmpty(t);
      }
    } else {
      var c := cell[..|cell| - 1];
      FieldsAfterSeparator(t, c);
      var u := t + [Separator] + Literals(cell);
      assert u[..|u| - 1] == t + [Separator] + Literals(c);
      assert c + [cell[|cell| - 1]] == cell;
    }
  }

  lemma {:induction false} CellTokensSnoc(row: seq<string>, cell: string)
    requires row != []
    ensures CellTokens(row + [cell]) == CellTokens(row) + [Separator] + Literals(cell)
    decreases |row|
  {
    if |row| > 1 {
      assert (row + [cell])[1..] == row[1..] + [cell];
      CellTokensSnoc(row[1..], cell);
    }
  }

  lemma {:induction false} FieldsOfCellTokens(row: seq<string>)
    requires row != []
    ensures RawFields(CellTokens(row)) == row
    decreases |row|
  {
    if |row| == 1 {
      FieldsOfLiterals(row[0]);
    } else {
      var init := row[..|row| - 1];
      FieldsOfCellTokens(init);
      CellTokensSnoc(init, row[|row| - 1]);
      assert init + [row[|row| - 1]] == row;
      FieldsAfterSeparator(CellTokens(init), row[|row| - 1]);
    }
  }

  /** Quoting is undone by the tokenizer: an encoded row of trimmed cells reads back as itself. */
  lemma LineRoundTrip(row: seq<string>)
    requires row != []
    requires forall k :: 0 <= k < |row| ==> Trimmed(row[k])
    ensures LineFields(EncodeRow(row)) == row
  {
    LexEncoded(row);
    FieldsOfCellTokens(row);
    forall k | 0 <= k < |row| ensures Trim(row[k]) == row[k] {
      TrimOfTrimmed(row[k]);
    }
  }

  // ---------------------------------------------------------------------------
  // Which lines survive the tokenizer's blank-line filter

  lemma NonBlankStart(s: string)
    requires s != [] && !IsWhitespace(s[0])
    ensures Trim(s) != []
  {
    assert SkipLeading(s, 0) == 0;
    TrailingIsWhitespace(s, 0, |s|);
  }

  lemma EscapedEnds(cell: string)
    requires cell != [] && Trimmed(cell)
    ensures EscapeCell(cell) != []
    ensures !IsWhitespace(EscapeCell(cell)[0])
    ensures !IsWhitespace(EscapeCell(cell)[|EscapeCell(cell)| - 1])
  {
  }

  /** An encoded row that is not a single empty cell is a non-blank trimmed line. */
  lemma EncodedLineShape(row: seq<string>)
    requires row != [] && row != [""]
    requires forall k :: 0 <= k < |row| ==> Trimmed(row[k])
    ensures EncodeRow(row) != [] && Trimmed(EncodeRow(row))
  {
    var parts := EscapeAll(row);
    var line := EncodeRow(row);
    if |row| == 1 {
      assert row[0] != [];
      EscapedEnds(row[0]);
    } else {
      JoinFront(',', parts);
      var last := row[|row| - 1];
      assert line == Join(',', parts[..|parts| - 1]) + [','] + parts[|parts| - 1];
      if row[0] != [] {
        EscapedEnds(row[0]);
        assert line[0] == parts[0][0];
      } else {
        assert parts[0] == [];
        assert line[0] == ',';
      }
      if last != [] {
        EscapedEnds(last);
        assert line[|line| - 1] == parts[|parts| - 1][|parts[|parts| - 1]| - 1];
      } else {
        assert parts[|parts| - 1] == [];
        assert line[|line| - 1] == ',';
      }
    }
  }

  lemma {:induction false} NonEmptyPrefixAgree(x: seq<string>, y: seq<string>, n: nat)
    requires n <= |x| && n <= |y| && x[..n] == y[..n]
    ensures NonEmptyPrefix(x, n) == NonEmptyPrefix(y, n)
    decreases n
  {
    if n > 0 {
      assert x[n - 1] == x[..n][n - 1] == y[..n][n - 1] == y[n - 1];
      assert x[..n - 1] == x[..n][..n - 1];
      assert y[..n - 1] == y[..n][..n - 1];
      NonEmptyPrefixAgree(x, y, n - 1);
    }
  }

  lemma {:induction false} NonEmptyPrefixAppend(a: seq<string>, b: seq<string>, m: nat)
    requires m <= |b|
    ensures NonEmptyPrefix(a + b, |a| + m) == NonEmptyPrefix(a, |a|) + NonEmptyPrefix(b, m)
    decreases m
  {
    if m == 0 {
      assert (a + b)[..|a|] == a[..|a|];
      NonEmptyPrefixAgree(a + b, a, |a|);
    } else {
      NonEmptyPrefixAppend(a, b, m - 1);
      assert (a + b)[|a| + m - 1] == b[m - 1];
    }
  }

  lemma TrimAllConcat(a: seq<string>, b: seq<string>)
    ensures TrimAll(a + b) == TrimAll(a) + TrimAll(b)
  {
    assert forall k :: 0 <= k < |a| ==> TrimAll(a + b)[k] == Trim(a[k]);
    assert forall k :: |a| <= k < |a + b| ==> TrimAll(a + b)[k] == Trim(b[k - |a|]);
  }

  lemma NonBlankAppend(a: seq<string>, b: seq<string>)
    ensures NonBlankLines(a + b) == NonBlankLines(a) + NonBlankLines(b)
  {
    TrimAllConcat(a, b);
    NonEmptyPrefixAppend(TrimAll(a), TrimAll(b), |b|);
  }

  lemma {:induction false} NonEmptyPrefixOfClean(xs: seq<string>, n: nat)
    requires n <= |xs|
    requires forall k :: 0 <= k < |xs| ==> xs[k] != []
    ensures NonEmptyPrefix(xs, n) == xs[..n]
    decreases n
  {
    if n > 0 {
      NonEmptyPrefixOfClean(xs, n - 1);
      assert xs[..n] == xs[..n - 1] + [xs[n - 1]];
    }
  }

  lemma NonBlankOfClean(lines: seq<string>)
    requires forall k :: 0 <= k < |lines| ==> lines[k] != [] && Trimmed(lines[k])
    ensures NonBlankLines(lines) == lines
  {
    forall k | 0 <= k < |lines| ensures TrimAll(lines)[k] == lines[k] {
      TrimOfTrimmed(lines[k]);
    }
    NonEmptyPrefixOfClean(TrimAll(lines), |lines|);
  }

  lemma FieldsOfLinesAppend(a: seq<string>, b: seq<string>)
    ensures FieldsOfLines(a + b) == FieldsOfLines(a) + FieldsOfLines(b)
  {
  }

  /** A row the export writes and the tokenizer reads back unchanged. */
  predicate Recoverable(row: seq<string>) {
    row != [] && row != [""]
    && forall k :: 0 <= k < |row| ==> Trimmed(row[k]) && '\n' !in row[k]
  }

  /**
   * Export followed by `parseCSV`: four metadata rows, then the headers, then
   * every data row, unchanged. The headers line is joined without quoting, so
   * headers must not need quoting.
   */
  lemma ExportParseRoundTrip(data: seq<seq<string>>, headers: seq<string>, generated: string)
    requires '\n' !in generated
    requires Recoverable(headers)
    requires forall k :: 0 <= k < |headers| ==> !NeedsQuoting(headers[k])
    requires forall r :: 0 <= r < |data| ==> Recoverable(data[r])
    ensures |Parse(ExportContent(data, headers, generated))| == 5 + |data|
    ensures Parse(ExportContent(data, headers, generated))[4] == headers
    ensures Parse(ExportContent(data, headers, generated))[5..] == data
  {
    ParsedRows(data, headers, generated);
    var parsed := Parse(ExportContent(data, headers, generated));
    HeaderLineBack(headers);
    forall r | 0 <= r < |data| ensures parsed[5 + r] == data[r] {
      LineRoundTrip(data[r]);
    }
  }

  /** The rows parsed from the export, from the header row on, are the fields of the header line and of the data lines. */
  lemma ParsedRows(data: seq<seq<string>>, headers: seq<string>, generated: string)
    requires '\n' !in generated
    requires Recoverable(headers)
    requires forall k :: 0 <= k < |headers| ==> !NeedsQuoting(headers[k])
    requires forall r :: 0 <= r < |data| ==> Recoverable(data[r])
    ensures var parsed := Parse(ExportContent(data, headers, generated));
      |parsed| == 5 + |data| && parsed[4] == LineFields(Join(',', headers))
      && forall r :: 0 <= r < |data| ==> parsed[5 + r] == LineFields(EncodeRow(data[r]))
  {
    var lines := ExportLines(data, headers, generated);
    ParsedLines(data, headers, generated);
    var all := NonBlankLines(lines[..5]) + lines[5..];
    assert all[4] == lines[5];
    forall r | 0 <= r < |data| ensures all[5 + r] == EncodeRow(data[r]) {
      assert all[5 + r] == lines[6 + r];
    }
  }

  /** Parsing the export reads the four kept metadata lines followed by the lines from the header on. */
  lemma ParsedLines(data: seq<seq<string>>, headers: seq<string>, generated: string)
    requires '\n' !in generated
    requires Recoverable(headers)
    requires forall k :: 0 <= k < |headers| ==> !NeedsQuoting(headers[k])
    requires forall r :: 0 <= r < |data| ==> Recoverable(data[r])
    ensures var lines := ExportLines(data, headers, generated);
      |lines| == 6 + |data| && lines[5] == Join(',', headers)
      && (forall r :: 0 <= r < |data| ==> lines[6 + r] == EncodeRow(data[r]))
      && |NonBlankLines(lines[..5])| == 4
      && Parse(ExportContent(data, headers, generated)) == FieldsOfLines(NonBlankLines(lines[..5]) + lines[5..])
  {
    var lines := ExportLines(data, headers, generated);
    ExportLayout(data, headers, generated);
    MetadataKept(data, headers, generated);
    RestKept(data, headers, generated);
    NonBlankAppend(lines[..5], lines[5..]);
    assert lines == lines[..5] + lines[5..];
  }

  /** A header line of cells that need no quoting reads back as the headers. */
  lemma HeaderLineBack(headers: seq<string>)
    requires Recoverable(headers)
    requires forall k :: 0 <= k < |headers| ==> !NeedsQuoting(headers[k])
    ensures LineFields(Join(',', headers)) == headers
  {
    assert EscapeAll(headers) == headers;
    LineRoundTrip(headers);
  }


  /** Of the five metadata lines the tokenizer keeps four: every one but the blank line. */
  lemma MetadataKept(data: seq<seq<string>>, headers: seq<string>, generated: string)
    ensures |NonBlankLines(ExportLines(data, headers, generated)[..5])| == 4
  {
    var lines := ExportLines(data, headers, generated);
    var meta := lines[..5];
    assert meta == [lines[0], lines[1], lines[2], lines[3]] + [""];
    NonBlankAppend([lines[0], lines[1], lines[2], lines[3]], [""]);
    forall k | 0 <= k < 4 ensures lines[k] != [] && lines[k][0] == '#' {
    }
    var four := [lines[0], lines[1], lines[2], lines[3]];
    forall k | 0 <= k < 4 ensures TrimAll(four)[k] != [] {
      NonBlankStart(four[k]);
    }
    NonEmptyPrefixOfClean(TrimAll(four), 4);
    assert NonBlankLines([""]) == [];
  }

  /** The header line and the data lines all survive the blank-line filter unchanged. */
  lemma RestKept(data: seq<seq<string>>, headers: seq<string>, generated: string)
    requires '\n' !in generated
    requires Recoverable(headers)
    requires forall k :: 0 <= k < |headers| ==> !NeedsQuoting(headers[k])
    requires forall r :: 0 <= r < |data| ==> Recoverable(data[r])
    ensures NonBlankLines(ExportLines(data, headers, generated)[5..]) == ExportLines(data, headers, generated)[5..]
  {
    var lines := ExportLines(data, headers, generated);
    ExportLayout(data, headers, generated);
    var rest := lines[5..];
    assert EscapeAll(headers) == headers;
    EncodedLineShape(headers);
    forall r | 0 <= r < |rest| ensures rest[r] != [] && Trimmed(rest[r]) {
      if r > 0 {
        assert rest[r] == EncodeRow(data[r - 1]);
        EncodedLineShape(data[r - 1]);
      }
    }
    NonBlankOfClean(rest);
  }
}
