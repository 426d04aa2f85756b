/**
 * The automatic sort of `processCSVData`: rows ordered by their lower-cased
 * person-name cell (position 3 after filtering, `''` when the row is shorter).
 * `localeCompare` is modelled as code-point lexicographic order.
 */
module PersonSort {
  import opened Text
  import opened StableSort

  const PersonNameIndex: nat := 3

  /** `a` comes no later than `b` in code-point lexicographic order. */
  predicate LexLe(a: string, b: string) {
    a == [] || (b != [] && (a[0] < b[0] || (a[0] == b[0] && LexLe(a[1..], b[1..]))))
  }

  lemma {:induction false} LexLeTotal(a: string, b: string)
    ensures LexLe(a, b) || LexLe(b, a)
  {
    if a != [] && b != [] && a[0] == b[0] {
      LexLeTotal(a[1..], b[1..]);
    }
  }

  lemma {:induction false} LexLeTrans(a: string, b: string, c: string)
    requires LexLe(a, b) && LexLe(b, c)
    ensures LexLe(a, c)
  {
    if a != [] && b != [] && c != [] && a[0] == b[0] == c[0] {
      LexLeTrans(a[1..], b[1..], c[1..]);
    }
  }

  lemma {:induction false} LexLeAntisym(a: string, b: string)
    requires LexLe(a, b) && LexLe(b, a)
    ensures a == b
  {
    if a != [] && b != [] {
      LexLeAntisym(a[1..], b[1..]);
      assert a == [a[0]] + a[1..] && b == [b[0]] + b[1..];
    }
  }

  /** `(row[3] || '').toString().toLowerCase()`. */
  function PersonKey(row: seq<string>): string {
    ToLower(if |row| > PersonNameIndex then row[PersonNameIndex] else "")
  }

  /** The comparator of the automatic sort returns a value `<= 0`. */
  predicate NameLe(a: seq<string>, b: seq<string>) {
    LexLe(PersonKey(a), PersonKey(b))
  }

  /** The data rows after the automatic sort. */
  function SortByPerson(data: seq<seq<string>>): seq<seq<string>> {
    Sort(data, NameLe)
  }

  /** The rows of `data` whose key is `key`, in order. */
  function WithKey(data: seq<seq<string>>, key: string): (r: seq<seq<string>>)
    ensures forall k :: 0 <= k < |r| ==> PersonKey(r[k]) == key
  {
    if data == [] then []
    else WithKey(data[..|data| - 1], key) + (if PersonKey(data[|data| - 1]) == key then [data[|data| - 1]] else [])
  }

  lemma NameOrderIsPreorder(m: multiset<seq<string>>)
    ensures PreorderOn(m, NameLe)
  {
    forall a, b | a in m && b in m ensures NameLe(a, b) || NameLe(b, a) {
      LexLeTotal(PersonKey(a), PersonKey(b));
    }
    forall a, b, c | a in m && b in m && c in m && NameLe(a, b) && NameLe(b, c) ensures NameLe(a, c) {
      LexLeTrans(PersonKey(a), PersonKey(b), PersonKey(c));
    }
  }

  /** Two rows tie under the comparator exactly when their keys are equal. */
  lemma {:induction false} TiesAreSameKey(data: seq<seq<string>>, p: seq<string>)
    ensures Ties(data, p, NameLe) == WithKey(data, PersonKey(p))
    decreases |data|
  {
    if data != [] {
      TiesAreSameKey(data[..|data| - 1], p);
      var z := data[|data| - 1];
      if NameLe(z, p) && NameLe(p, z) {
        LexLeAntisym(PersonKey(z), PersonKey(p));
      }
      LexLeReflexive(PersonKey(z));
    }
  }

  lemma {:induction false} LexLeReflexive(a: string)
    ensures LexLe(a, a)
  {
    if a != [] {
      LexLeReflexive(a[1..]);
    }
  }

  /**
   * The automatic sort: a permutation of the rows, ordered by key, and stable
   * (the rows sharing a key keep their relative order).
   */
  lemma SortByPersonSpec(data: seq<seq<string>>)
    ensures multiset(SortByPerson(data)) == multiset(data)
    ensures |SortByPerson(data)| == |data|
    ensures forall i, j :: 0 <= i < j < |data| ==>
      LexLe(PersonKey(SortByPerson(data)[i]), PersonKey(SortByPerson(data)[j]))
    ensures forall p :: WithKey(SortByPerson(data), PersonKey(p)) == WithKey(data, PersonKey(p))
  {
    SortPermutes(data, NameLe);
    NameOrderIsPreorder(multiset(data));
    SortSorted(data, NameLe);
    forall p ensures WithKey(SortByPerson(data), PersonKey(p)) == WithKey(data, PersonKey(p)) {
      NameOrderIsPreorder(multiset(data) + multiset{p});
      SortTies(data, p, NameLe);
      TiesAreSameKey(data, p);
      TiesAreSameKey(SortByPerson(data), p);
    }
  }
}
