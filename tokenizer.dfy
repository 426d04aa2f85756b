/**
 * The tokenizer (`parseCSV`): text is cut into physical lines, each line is
 * trimmed, blank lines are skipped, and every other line becomes one row.
 * Inside a line, quoting follows RFC 4180 section 2 rules 5-7 as far as one
 * record per line allows: a `"` toggles the quoted state, `""` inside quotes
 * stands for one literal `"`, and only an unquoted comma separates fields.
 *
 * The specification is split in two: `Lex` turns a line into a sequence of
 * tokens (a literal character or a field separator), and `RawFields` cuts a
 * token sequence at its separators.
 */
module CsvTokenizer {
  import opened Text

  datatype Token = Literal(c: char) | Separator

  /** The tokens the character scan of a line emits, starting in quoted state `inQuotes`. */
  function Lex(s: string, inQuotes: bool): seq<Token>
    decreases |s|
  {
    if s == [] then []
    else if s[0] == '"' then
      if inQuotes && |s| > 1 && s[1] == '"' then [Literal('"')] + Lex(s[2..], inQuotes)
      else Lex(s[1..], !inQuotes)
    else if s[0] == ',' && !inQuotes then [Separator] + Lex(s[1..], inQuotes)
    else [Literal(s[0])] + Lex(s[1..], inQuotes)
  }

  function SeparatorCount(t: seq<Token>): nat {
    if t == [] then 0 else SeparatorCount(t[..|t| - 1]) + (if t[|t| - 1] == Separator then 1 else 0)
  }

  /** The untrimmed field texts between the separators of `t`. */
  function RawFields(t: seq<Token>): seq<string> {
    if t == [] then [[]]
    else
      var p := RawFields(t[..|t| - 1]);
      match t[|t| - 1]
      case Separator => p + [[]]
      case Literal(c) => if p == [] then [[c]] else p[..|p| - 1] + [p[|p| - 1] + [c]]
  }

  function TrimAll(fields: seq<string>): seq<string> {
    seq(|fields|, k requires 0 <= k < |fields| => Trim(fields[k]))
  }

  /** The row `parseCSV` produces for one (already trimmed, non-blank) line. */
  function LineFields(line: string): seq<string> {
    TrimAll(RawFields(Lex(line, false)))
  }

  /** The non-empty strings among the first `n` of `xs`, in order. */
  function NonEmptyPrefix(xs: seq<string>, n: nat): seq<string>
    requires n <= |xs|
  {
    if n == 0 then []
    else if xs[n - 1] == [] then NonEmptyPrefix(xs, n - 1)
    else NonEmptyPrefix(xs, n - 1) + [xs[n - 1]]
  }

  /** The lines `parseCSV` keeps: each trimmed, the blank ones skipped. */
  function NonBlankLines(lines: seq<string>): seq<string> {
    NonEmptyPrefix(TrimAll(lines), |lines|)
  }

  function FieldsOfLines(lines: seq<string>): (r: seq<seq<string>>)
    ensures |r| == |lines|
    ensures forall k :: 0 <= k < |lines| ==> r[k] == LineFields(lines[k])
  {
    if lines == [] then [] else FieldsOfLines(lines[..|lines| - 1]) + [LineFields(lines[|lines| - 1])]
  }

  /** What `parseCSV(text)` returns. */
  function Parse(text: string): seq<seq<string>> {
    FieldsOfLines(NonBlankLines(Split(text, '\n')))
  }

  /** The character loop of `parseCSV` for one line, proved to compute `LineFields`. */
  method ParseLine(line: string) returns (row: seq<string>)
    ensures row == LineFields(line)
  {
    row := [];
    var current: string := [];
    var inQuotes := false;
    ghost var emitted: seq<Token> := [];
    ghost var raw: seq<string> := [];
    var j := 0;
    while j < |line|
      invariant 0 <= j <= |line|
      invariant emitted + Lex(line[j..], inQuotes) == Lex(line, false)
      invariant RawFields(emitted) == raw + [current]
      invariant row == TrimAll(raw)
      decreases |line| - j
    {
      var c := line[j];
      LexAdvance(line, j, inQuotes, emitted);
      if c == '"' {
        if inQuotes && j + 1 < |line| && line[j + 1] == '"' {
          LiteralStep(emitted, raw, current, '"');
          current := current + ['"'];
          emitted := emitted + [Literal('"')];
          j := j + 1;
        } else {
          inQuotes := !inQuotes;
        }
      } else if c == ',' && !inQuotes {
        row := row + [Trim(current)];
        SeparatorStep(emitted, raw, current);
        TrimAllAppend(raw, current);
        raw := raw + [current];
        current := [];
        emitted := emitted + [Separator];
      } else {
        LiteralStep(emitted, raw, current, c);
        current := current + [c];
        emitted := emitted + [Literal(c)];
      }
      j := j + 1;
    }
    assert Lex(line[j..], inQuotes) == [] by { assert line[j..] == []; }
    assert emitted + [] == emitted;
    TrimAllAppend(raw, current);
    row := row + [Trim(current)];
  }

  /** A separator closes the current field and opens an empty one. */
  lemma SeparatorStep(t: seq<Token>, raw: seq<string>, current: string)
    requires RawFields(t) == raw + [current]
    ensures RawFields(t + [Separator]) == (raw + [current]) + [[]]
  {
    assert (t + [Separator])[..|t|] == t;
  }

  lemma TrimAllAppend(fields: seq<string>, f: string)
    ensures TrimAll(fields + [f]) == TrimAll(fields) + [Trim(f)]
  {
  }

  /** One step of the scan at position `j`, read off the definition of `Lex`. */
  lemma LexAdvance(line: string, j: nat, q: bool, emitted: seq<Token>)
    requires j < |line|
    requires emitted + Lex(line[j..], q) == Lex(line, false)
    ensures line[j] == '"' && q && j + 1 < |line| && line[j + 1] == '"' ==>
      (emitted + [Literal('"')]) + Lex(line[j + 2..], q) == Lex(line, false)
    ensures line[j] == '"' && !(q && j + 1 < |line| && line[j + 1] == '"') ==>
      emitted + Lex(line[j + 1..], !q) == Lex(line, false)
    ensures line[j] == ',' && !q ==> (emitted + [Separator]) + Lex(line[j + 1..], q) == Lex(line, false)
    ensures line[j] != '"' && !(line[j] == ',' && !q) ==>
      (emitted + [Literal(line[j])]) + Lex(line[j + 1..], q) == Lex(line, false)
  {
    var rest := line[j..];
    assert rest[1..] == line[j + 1..];
    if j + 1 < |line| {
      assert rest[2..] == line[j + 2..];
    }
    forall x: Token, b: seq<Token> ensures (emitted + [x]) + b == emitted + ([x] + b) {
    }
  }

  /** A literal extends the current field by one character. */
  lemma LiteralStep(t: seq<Token>, raw: seq<string>, current: string, c: char)
    requires RawFields(t) == raw + [current]
    ensures RawFields(t + [Literal(c)]) == raw + [current + [c]]
  {
    assert (t + [Literal(c)])[..|t|] == t;
    var p := raw + [current];
    assert p[..|p| - 1] == raw;
  }

  lemma {:induction false} RawFieldsNonEmpty(t: seq<Token>)
    ensures RawFields(t) != []
    decreases |t|
  {
    if t != [] {
      RawFieldsNonEmpty(t[..|t| - 1]);
    }
  }

  /** `parseCSV`: one row per line that is not blank after trimming. */
  method ParseCsv(text: string) returns (rows: seq<seq<string>>)
    ensures rows == Parse(text)
  {
    var lines := Split(text, '\n');
    ghost var trimmed := TrimAll(lines);
    rows := [];
    ghost var kept: seq<string> := [];
    for i := 0 to |lines|
      invariant kept == NonEmptyPrefix(trimmed, i)
      invariant rows == FieldsOfLines(kept)
    {
      var line := Trim(lines[i]);
      assert line == trimmed[i];
      if line != [] {
        var row := ParseLine(line);
        FieldsOfLinesStep(kept, line);
        rows := rows + [row];
        kept := kept + [line];
      }
    }
  }

  lemma FieldsOfLinesStep(kept: seq<string>, line: string)
    ensures FieldsOfLines(kept + [line]) == FieldsOfLines(kept) + [LineFields(line)]
  {
    assert (kept + [line])[..|kept|] == kept;
  }

  lemma {:induction false} RawFieldsCount(t: seq<Token>)
    ensures |RawFields(t)| == SeparatorCount(t) + 1
    decreases |t|
  {
    if t != [] {
      RawFieldsCount(t[..|t| - 1]);
    }
  }

  /** A line yields one more field than it has unquoted commas, and every field is trimmed. */
  lemma LineFieldsShape(line: string)
    ensures |LineFields(line)| == SeparatorCount(Lex(line, false)) + 1
    ensures forall k :: 0 <= k < |LineFields(line)| ==> Trimmed(LineFields(line)[k])
  {
    RawFieldsCount(Lex(line, false));
  }

  /** Inside quotes a doubled quote is one literal `"` and the quoted state is kept. */
  lemma EscapedQuoteInQuotes(rest: string)
    ensures Lex(['"', '"'] + rest, true) == [Literal('"')] + Lex(rest, true)
  {
    assert (['"', '"'] + rest)[2..] == rest;
  }

  /** Any other quote character flips the quoted state and emits nothing. */
  lemma LoneQuoteFlips(rest: string, q: bool)
    requires !(q && rest != [] && rest[0] == '"')
    ensures Lex(['"'] + rest, q) == Lex(rest, !q)
  {
    assert (['"'] + rest)[1..] == rest;
  }

  /** A comma inside quotes is an ordinary character. */
  lemma CommaInQuotes(rest: string)
    ensures Lex([','] + rest, true) == [Literal(',')] + Lex(rest, true)
  {
    assert ([','] + rest)[1..] == rest;
  }
}
