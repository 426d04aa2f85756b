/**
 * `processHeaders`: the header row loses the ignored columns, every remaining
 * header is cleaned and sanitised into an identifier of at most 30 characters,
 * and repeated names get a `_2`, `_3`, ... suffix.
 */
module HeaderNormalizer {
  import opened Base
  import opened Text
  import opened CellCleaner
  import opened ColumnFilter

  const MaxHeaderLength: nat := 30

  /** The characters `[a-zA-Z0-9_]` a sanitised header may contain. */
  predicate IsNameChar(c: char) {
    ('a' <= c <= 'z') || ('A' <= c <= 'Z') || ('0' <= c <= '9') || c == '_'
  }

  predicate IsName(s: string) {
    forall k :: 0 <= k < |s| ==> IsNameChar(s[k])
  }

  /** `Column_${index + 1}`. */
  function Fallback(index: nat): (r: string)
    ensures r != [] && r[0] == 'C' && IsName(r)
  {
    "Column_" + NatToString(index + 1)
  }

  /** `.replace(/[^a-zA-Z0-9_]/g, '_')`. */
  function Sanitize(s: string): (r: string)
    ensures |r| == |s| && IsName(r)
    ensures forall k :: 0 <= k < |s| ==> (r[k] == s[k] <==> IsNameChar(s[k]))
  {
    seq(|s|, k requires 0 <= k < |s| => if IsNameChar(s[k]) then s[k] else '_')
  }

  /** The first index at or after `i` that does not hold `_`. */
  function SkipUnderscores(s: string, i: nat): (n: nat)
    requires i <= |s|
    ensures i <= n <= |s|
    ensures n == |s| || s[n] != '_'
    ensures forall k :: i <= k < n ==> s[k] == '_'
    decreases |s| - i
  {
    if i < |s| && s[i] == '_' then SkipUnderscores(s, i + 1) else i
  }

  /** The end of `s[lo..j]` once the `_` characters at its end are dropped. */
  function SkipTrailingUnderscores(s: string, lo: nat, j: nat): (m: nat)
    requires lo <= j <= |s|
    ensures lo <= m <= j
    ensures m == lo || s[m - 1] != '_'
    ensures forall k :: m <= k < j ==> s[k] == '_'
    decreases j
  {
    if lo < j && s[j - 1] == '_' then SkipTrailingUnderscores(s, lo, j - 1) else j
  }

  /** `.replace(/^_+|_+$/g, '')`: a piece of `s` that neither starts nor ends with `_`. */
  function StripUnderscores(s: string): (r: string)
    ensures r == [] || (r[0] != '_' && r[|r| - 1] != '_')
    ensures OccursAt(r, s, SkipUnderscores(s, 0))
    ensures forall k :: 0 <= k < SkipUnderscores(s, 0) ==> s[k] == '_'
    ensures forall k :: SkipUnderscores(s, 0) + |r| <= k < |s| ==> s[k] == '_'
  {
    var a := SkipUnderscores(s, 0);
    s[a..SkipTrailingUnderscores(s, a, |s|)]
  }

  /** `.substring(0, 30)`. */
  function Truncate(s: string, n: nat): (r: string)
    ensures |r| <= n && |r| <= |s| && r == s[..|r|]
    ensures |s| <= n ==> r == s
    ensures |s| > n ==> |r| == n
  {
    if |s| <= n then s else s[..n]
  }

  /** Sanitising an already cleaned header, with the fallback when nothing is left. */
  function Finish(cleaned: string, index: nat): (r: string)
    ensures r != [] && IsName(r) && r[0] != '_'
    ensures |r| <= MaxHeaderLength || r == Fallback(index)
  {
    var n := Sanitize(cleaned);
    var u := StripUnderscores(n);
    var s := Truncate(u, MaxHeaderLength);
    NamePieces(n, u, s);
    if s == [] then Fallback(index) else s
  }

  lemma NamePieces(n: string, u: string, s: string)
    requires IsName(n) && OccursAt(u, n, SkipUnderscores(n, 0)) && |s| <= |u| && s == u[..|s|]
    requires u == [] || u[0] != '_'
    ensures IsName(s)
    ensures s == [] || s[0] != '_'
  {
    var a := SkipUnderscores(n, 0);
    assert forall k :: 0 <= k < |s| ==> s[k] == u[k] == n[a + k];
  }

  /**
   * The name the header at (filtered) position `index` gets before de-duplication:
   * a non-empty identifier not starting with `_`, at most 30 characters long
   * unless it is the `Column_n` fallback.
   */
  function BaseName(header: string, index: nat): string {
    Finish(Clean(if header == [] then Fallback(index) else header), index)
  }

  /** How often `bases[k]` occurs before position `k`. */
  function Occurrences(bases: seq<string>, k: nat): nat
    requires k < |bases|
  {
    multiset(bases[..k])[bases[k]]
  }

  /** The first occurrence keeps its name; the n-th occurrence (n >= 2) gets `_n`. */
  function Numbered(base: string, earlier: nat): string {
    if earlier == 0 then base else base + "_" + NatToString(earlier + 1)
  }

  /**
   * The loop of `processHeaders` over the kept headers, with its `headerCounts`
   * map: one header per kept position, the `(n)`-th repeat of a base name
   * numbered `_n`.
   */
  method ProcessHeaders(headerRow: seq<string>) returns (headers: seq<string>, originalHeaders: seq<string>)
    ensures originalHeaders == headerRow
    ensures |headers| == |BaseNames(headerRow)| == |headerRow| - IgnoredBelow(|headerRow|)
    ensures forall k :: 0 <= k < |headers| ==>
      headers[k] == Numbered(BaseNames(headerRow)[k], Occurrences(BaseNames(headerRow), k))
    ensures headers == NormalizedHeaders(headerRow)
  {
    originalHeaders := headerRow;
    var filtered := DropIgnored(headerRow);
    DropIgnoredShape(headerRow);
    ghost var bases := BaseNames(headerRow);
    var counts: map<string, nat> := map[];
    headers := [];
    for index := 0 to |filtered|
      invariant |headers| == index
      invariant forall k :: 0 <= k < index ==> headers[k] == Numbered(bases[k], Occurrences(bases, k))
      invariant forall b :: b in counts <==> b in multiset(bases[..index])
      invariant forall b :: b in counts ==> counts[b] == multiset(bases[..index])[b]
    {
      var header := filtered[index];
      var cleanHeader := CleanCellData(Some(if header == [] then Fallback(index) else header));
      cleanHeader := Finish(cleanHeader, index);
      assert cleanHeader == bases[index];
      CountStep(bases, index, counts);
      ghost var occ := Occurrences(bases, index);
      NumberedStep(cleanHeader, counts, occ);
      if cleanHeader in counts {
        var count := counts[cleanHeader] + 1;
        counts := counts[cleanHeader := count];
        cleanHeader := cleanHeader + "_" + NatToString(count);
      } else {
        counts := counts[cleanHeader := 1];
      }
      HeadersStep(bases, headers, cleanHeader);
      headers := headers + [cleanHeader];
    }
    NormalizedHeadersAre(headerRow, headers);
  }

  lemma NormalizedHeadersAre(headerRow: seq<string>, headers: seq<string>)
    requires |headers| == |BaseNames(headerRow)|
    requires forall k :: 0 <= k < |headers| ==>
      headers[k] == Numbered(BaseNames(headerRow)[k], Occurrences(BaseNames(headerRow), k))
    ensures headers == NormalizedHeaders(headerRow)
  {
  }

  /** The headers `processHeaders` returns, as one value. */
  function NormalizedHeaders(headerRow: seq<string>): seq<string> {
    var bases := BaseNames(headerRow);
    seq(|bases|, k requires 0 <= k < |bases| => Numbered(bases[k], Occurrences(bases, k)))
  }

  /** The base names of the kept headers, in order. */
  function BaseNames(headerRow: seq<string>): (r: seq<string>)
    ensures |r| == |DropIgnored(headerRow)|
  {
    var filtered := DropIgnored(headerRow);
    seq(|filtered|, k requires 0 <= k < |filtered| => BaseName(filtered[k], k))
  }

  lemma NumberedStep(base: string, counts: map<string, nat>, occ: nat)
    requires base in counts ==> counts[base] == occ > 0
    requires base !in counts ==> occ == 0
    ensures base in counts ==> base + "_" + NatToString(counts[base] + 1) == Numbered(base, occ)
    ensures base !in counts ==> base == Numbered(base, occ)
  {
  }

  lemma HeadersStep(bases: seq<string>, headers: seq<string>, next: string)
    requires |headers| < |bases|
    requires forall k :: 0 <= k < |headers| ==> headers[k] == Numbered(bases[k], Occurrences(bases, k))
    requires next == Numbered(bases[|headers|], Occurrences(bases, |headers|))
    ensures forall k :: 0 <= k < |headers| + 1 ==> (headers + [next])[k] == Numbered(bases[k], Occurrences(bases, k))
  {
  }

  /** The `headerCounts` map after one more header, and what it says about that header. */
  lemma CountStep(bases: seq<string>, i: nat, counts: map<string, nat>)
    requires i < |bases|
    requires forall b :: b in counts <==> b in multiset(bases[..i])
    requires forall b :: b in counts ==> counts[b] == multiset(bases[..i])[b]
    ensures bases[i] in counts ==> counts[bases[i]] == Occurrences(bases, i) > 0
    ensures bases[i] !in counts ==> Occurrences(bases, i) == 0
    ensures var next := if bases[i] in counts then counts[bases[i] := counts[bases[i]] + 1] else counts[bases[i] := 1];
      (forall b :: b in next <==> b in multiset(bases[..i + 1]))
      && (forall b :: b in next ==> next[b] == multiset(bases[..i + 1])[b])
  {
    assert bases[..i + 1] == bases[..i] + [bases[i]];
  }

  /** A numbered header is still a non-empty identifier that does not start with `_`, and begins with its base. */
  lemma NumberedShape(base: string, earlier: nat)
    requires base != [] && IsName(base) && base[0] != '_'
    ensures var r := Numbered(base, earlier);
      r != [] && IsName(r) && r[0] != '_' && |base| <= |r| && r[..|base|] == base
  {
    if earlier > 0 {
      var r := base + "_" + NatToString(earlier + 1);
      assert forall k :: |base| < k < |r| ==> r[k] == NatToString(earlier + 1)[k - |base| - 1];
    }
  }

  /** Every header `processHeaders` returns is a non-empty identifier that does not start with `_`. */
  lemma HeaderShape(headerRow: seq<string>, k: nat)
    requires k < |BaseNames(headerRow)|
    ensures var bases := BaseNames(headerRow); var r := Numbered(bases[k], Occurrences(bases, k));
      r != [] && IsName(r) && r[0] != '_'
      && (|bases[k]| <= MaxHeaderLength || bases[k] == Fallback(k))
  {
    var bases := BaseNames(headerRow);
    NumberedShape(bases[k], Occurrences(bases, k));
  }

  /** A header keeps its base name exactly when no earlier header has the same base name. */
  lemma FirstOccurrenceKeepsName(bases: seq<string>, k: nat)
    requires k < |bases|
    ensures Occurrences(bases, k) == 0 <==> forall j :: 0 <= j < k ==> bases[j] != bases[k]
  {
    if Occurrences(bases, k) == 0 {
      forall j | 0 <= j < k ensures bases[j] != bases[k] {
        assert bases[..k][j] == bases[j];
        assert bases[j] in multiset(bases[..k]);
      }
    } else {
      assert bases[k] in multiset(bases[..k]);
      assert bases[k] in bases[..k];
      var j :| 0 <= j < k && bases[..k][j] == bases[k];
      assert bases[j] == bases[k];
    }
  }

  /**
   * Suffixes do not make headers unique: the base names `a, a, a_2` (which the
   * header row `x, a, a, a_2` produces, see `PlainBase`) are numbered
   * `a, a_2, a_2`, because the counts are keyed by base name.
   */
  lemma {:induction false} NumberingCollides(a: string)
    ensures var bases := [a, a, a + "_2"];
      Numbered(bases[0], Occurrences(bases, 0)) == a
      && Numbered(bases[1], Occurrences(bases, 1)) == a + "_2"
      && Numbered(bases[2], Occurrences(bases, 2)) == a + "_2"
  {
    var a2 := a + "_2";
    var bases := [a, a, a2];
    assert bases[..1] == [a];
    assert bases[..2] == [a, a];
    assert a2 != a by { assert |a2| != |a|; }
    SecondSuffix();
  }

  lemma SecondSuffix()
    ensures NatToString(2) == "2"
  {
    assert DigitChar(2) == '2';
  }

  /** A header that is already a short identifier neither starting nor ending with `_` is its own base name. */
  lemma {:induction false} PlainBase(header: string, index: nat)
    requires header != [] && IsName(header) && |header| <= MaxHeaderLength
    requires header[0] != '_' && header[|header| - 1] != '_'
    ensures BaseName(header, index) == header
  {
    assert !IsWhitespace(header[0]) && !IsWhitespace(header[|header| - 1]);
    assert header[|header| - 1] != '"';
    assert header[0] != '=' && header[0] != '"';
    CleanKeepsPlain(header);
    SanitizeName(header);
    StripPlain(header);
  }

  lemma SanitizeName(s: string)
    requires IsName(s)
    ensures Sanitize(s) == s
  {
  }

  lemma StripPlain(s: string)
    requires s != [] && s[0] != '_' && s[|s| - 1] != '_'
    ensures StripUnderscores(s) == s
  {
    assert SkipUnderscores(s, 0) == 0;
    assert SkipTrailingUnderscores(s, 0, |s|) == |s|;
  }
}
