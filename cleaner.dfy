/**
 * `cleanCellData`: trims a cell, strips the `=` and `"` characters a spreadsheet
 * export leaves in front of it and the `"` characters behind it, and trims again.
 */
module CellCleaner {
  import opened Base
  import opened Text

  predicate IsLeadingNoise(c: char) { c == '=' || c == '"' }

  /** The first index at or after `i` whose character is not `=` or `"` (or `|s|`). */
  function SkipNoise(s: string, i: nat): (n: nat)
    requires i <= |s|
    ensures i <= n <= |s|
    ensures n == |s| || !IsLeadingNoise(s[n])
    decreases |s| - i
  {
    if i < |s| && IsLeadingNoise(s[i]) then SkipNoise(s, i + 1) else i
  }

  /** The end of `s[lo..j]` once the `"` characters at its end are dropped. */
  function SkipQuotes(s: string, lo: nat, j: nat): (m: nat)
    requires lo <= j <= |s|
    ensures lo <= m <= j
    ensures m == lo || s[m - 1] != '"'
    decreases j
  {
    if lo < j && s[j - 1] == '"' then SkipQuotes(s, lo, j - 1) else j
  }

  /** Where the kept part of `Trim(s)` starts and ends, before the final trim. */
  function Stripped(s: string): (r: string)
    ensures |r| <= |s|
  {
    var t := Trim(s);
    var a := SkipNoise(t, 0);
    t[a..SkipQuotes(t, a, |t|)]
  }

  /** What `cleanCellData` returns for a string cell. */
  function Clean(s: string): (r: string)
    ensures Trimmed(r)
    ensures |r| <= |s|
  {
    Trim(Stripped(s))
  }

  /** The offset in `s` at which `Clean(s)` occurs. */
  function CleanOffset(s: string): nat {
    var t := Trim(s);
    SkipLeading(s, 0) + SkipNoise(t, 0) + SkipLeading(Stripped(s), 0)
  }

  /** The cleaned cell is a contiguous piece of the raw one. */
  lemma CleanIsInfix(s: string)
    ensures OccursAt(Clean(s), s, CleanOffset(s))
  {
    var u := Stripped(s);
    StrippedIsInfix(s);
    OccursAtTrans(Clean(s), u, SkipLeading(u, 0), s, SkipLeading(s, 0) + SkipNoise(Trim(s), 0));
  }

  lemma StrippedIsInfix(s: string)
    ensures OccursAt(Stripped(s), s, SkipLeading(s, 0) + SkipNoise(Trim(s), 0))
  {
    var t := Trim(s);
    var a := SkipNoise(t, 0);
    OccursAtTrans(Stripped(s), t, a, s, SkipLeading(s, 0));
  }

  lemma OccursAtTrans(r: string, u: string, j: int, s: string, i: int)
    requires OccursAt(r, u, j) && OccursAt(u, s, i)
    ensures OccursAt(r, s, i + j)
  {
    assert forall k :: 0 <= k < |r| ==> r[k] == u[j + k] == s[i + j + k];
  }

  /** `cleanCellData`: a missing cell gives `""`, any other cell its cleaned text. */
  method CleanCellData(cell: Option<string>) returns (r: string)
    ensures cell.None? ==> r == []
    ensures cell.Some? ==> r == Clean(cell.value)
  {
    if cell.None? {
      return [];
    }
    var t := Trim(cell.value);
    var cleaned := StripLeadingNoise(t);
    cleaned := StripTrailingQuotes(t, SkipNoise(t, 0), cleaned);
    r := Trim(cleaned);
  }

  /** The first `while` loop: drops `=` and `"` characters from the front. */
  method StripLeadingNoise(t: string) returns (cleaned: string)
    ensures cleaned == t[SkipNoise(t, 0)..]
  {
    cleaned := t;
    ghost var a := 0;
    while cleaned != [] && IsLeadingNoise(cleaned[0])
      invariant a <= |t| && cleaned == t[a..]
      invariant SkipNoise(t, a) == SkipNoise(t, 0)
      decreases |cleaned|
    {
      NoiseStep(t, a, cleaned);
      cleaned := cleaned[1..];
      a := a + 1;
    }
    NoiseDone(t, a, cleaned);
  }

  /** The second `while` loop: drops `"` characters from the end of `t[a..]`. */
  method StripTrailingQuotes(t: string, ghost a: nat, s: string) returns (cleaned: string)
    requires a <= |t| && s == t[a..]
    ensures cleaned == t[a..SkipQuotes(t, a, |t|)]
  {
    cleaned := s;
    ghost var b := |t|;
    while cleaned != [] && cleaned[|cleaned| - 1] == '"'
      invariant a <= b <= |t| && cleaned == t[a..b]
      invariant SkipQuotes(t, a, b) == SkipQuotes(t, a, |t|)
      decreases |cleaned|
    {
      QuoteStep(t, a, b, cleaned);
      cleaned := cleaned[..|cleaned| - 1];
      b := b - 1;
    }
    QuoteDone(t, a, b, cleaned);
  }

  lemma NoiseStep(t: string, a: nat, cleaned: string)
    requires a <= |t| && cleaned == t[a..] && cleaned != [] && IsLeadingNoise(cleaned[0])
    ensures cleaned[1..] == t[a + 1..]
    ensures SkipNoise(t, a + 1) == SkipNoise(t, a)
  {
  }

  lemma NoiseDone(t: string, a: nat, cleaned: string)
    requires a <= |t| && cleaned == t[a..] && !(cleaned != [] && IsLeadingNoise(cleaned[0]))
    ensures SkipNoise(t, a) == a
  {
  }

  lemma QuoteStep(t: string, a: nat, b: nat, cleaned: string)
    requires a <= b <= |t| && cleaned == t[a..b] && cleaned != [] && cleaned[|cleaned| - 1] == '"'
    ensures cleaned[..|cleaned| - 1] == t[a..b - 1]
    ensures SkipQuotes(t, a, b - 1) == SkipQuotes(t, a, b)
  {
  }

  lemma QuoteDone(t: string, a: nat, b: nat, cleaned: string)
    requires a <= b <= |t| && cleaned == t[a..b] && !(cleaned != [] && cleaned[|cleaned| - 1] == '"')
    ensures SkipQuotes(t, a, b) == b
  {
  }

  /** A trimmed cell with no leading `=`/`"` and no trailing `"` is left as it is. */
  lemma CleanKeepsPlain(s: string)
    requires Trimmed(s)
    requires s == [] || (!IsLeadingNoise(s[0]) && s[|s| - 1] != '"')
    ensures Clean(s) == s
  {
    TrimOfTrimmed(s);
    if s != [] {
      assert SkipNoise(s, 0) == 0;
      assert SkipQuotes(s, 0, |s|) == |s|;
    }
  }

  /** Cleaning is not idempotent: `= "x` cleans to `"x`, which cleans to `x`. */
  lemma CleanNotIdempotent()
    ensures Clean("= \"x") == "\"x"
    ensures Clean("\"x") == "x"
    ensures Clean(Clean("= \"x")) != Clean("= \"x")
  {
    var s := "= \"x";
    TrimOfTrimmed(s);
    assert SkipNoise(s, 0) == 1;
    assert SkipQuotes(s, 1, 4) == 4;
    assert Stripped(s) == " \"x";
    assert SkipLeading(" \"x", 0) == 1;
    assert SkipTrailing(" \"x", 1, 3) == 3;
    var q := "\"x";
    TrimOfTrimmed(q);
    assert SkipNoise(q, 0) == 1;
    assert SkipQuotes(q, 1, 2) == 2;
    assert Stripped(q) == "x";
    TrimOfTrimmed("x");
  }
}
