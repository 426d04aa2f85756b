/**
 * `Array.prototype.sort` with a comparator, as the result it must produce: the
 * engine's algorithm is not visible, but ECMAScript requires the sort to be
 * stable. The result is specified by a stable insertion sort; `le(a, b)` holds
 * when the comparator does not put `a` after `b` (`compare(a, b) <= 0`).
 */
module StableSort {

  /** Inserts `x` after every element that may precede it, scanning from the back. */
  function Insert<T>(t: seq<T>, x: T, le: (T, T) -> bool): seq<T>
    decreases |t|
  {
    if t == [] then [x]
    else if le(t[|t| - 1], x) then t + [x]
    else Insert(t[..|t| - 1], x, le) + [t[|t| - 1]]
  }

  function Sort<T>(s: seq<T>, le: (T, T) -> bool): seq<T>
    decreases |s|
  {
    if s == [] then [] else Insert(Sort(s[..|s| - 1], le), s[|s| - 1], le)
  }

  /** `le` is total and transitive on the elements of `s`. */
  ghost predicate PreorderOn<T>(s: multiset<T>, le: (T, T) -> bool) {
    (forall a, b :: a in s && b in s ==> le(a, b) || le(b, a))
    && (forall a, b, c :: a in s && b in s && c in s && le(a, b) && le(b, c) ==> le(a, c))
  }

  ghost predicate SortedBy<T>(s: seq<T>, le: (T, T) -> bool) {
    forall i, j :: 0 <= i < j < |s| ==> le(s[i], s[j])
  }

  /** The elements of `s` that the order cannot tell apart from `p`, in their order in `s`. */
  function Ties<T>(s: seq<T>, p: T, le: (T, T) -> bool): seq<T>
    decreases |s|
  {
    if s == [] then [] else Ties(s[..|s| - 1], p, le) + Tie(s[|s| - 1], p, le)
  }

  function Tie<T>(z: T, p: T, le: (T, T) -> bool): seq<T> {
    if le(z, p) && le(p, z) then [z] else []
  }

  lemma {:induction false} InsertPermutes<T>(t: seq<T>, x: T, le: (T, T) -> bool)
    ensures multiset(Insert(t, x, le)) == multiset(t) + multiset{x}
    decreases |t|
  {
    if t != [] && !le(t[|t| - 1], x) {
      InsertPermutes(t[..|t| - 1], x, le);
      assert t == t[..|t| - 1] + [t[|t| - 1]];
    }
  }

  /** The sorted sequence is a permutation of the input, whatever the comparator. */
  lemma {:induction false} SortPermutes<T>(s: seq<T>, le: (T, T) -> bool)
    ensures multiset(Sort(s, le)) == multiset(s)
    ensures |Sort(s, le)| == |s|
    decreases |s|
  {
    if s != [] {
      SortPermutes(s[..|s| - 1], le);
      InsertPermutes(Sort(s[..|s| - 1], le), s[|s| - 1], le);
      assert s == s[..|s| - 1] + [s[|s| - 1]];
    }
  }

  /** Every element of `Insert(t, x)` is bounded by `y` when those of `t` and `x` are. */
  lemma {:induction false} InsertBounded<T>(t: seq<T>, x: T, y: T, le: (T, T) -> bool)
    requires forall i :: 0 <= i < |t| ==> le(t[i], y)
    requires le(x, y)
    ensures forall i :: 0 <= i < |Insert(t, x, le)| ==> le(Insert(t, x, le)[i], y)
    decreases |t|
  {
    if t != [] && !le(t[|t| - 1], x) {
      InsertBounded(t[..|t| - 1], x, y, le);
    }
  }

  lemma {:induction false} InsertSorted<T>(t: seq<T>, x: T, le: (T, T) -> bool, m: multiset<T>)
    requires PreorderOn(m, le)
    requires multiset(t) + multiset{x} <= m
    requires SortedBy(t, le)
    ensures SortedBy(Insert(t, x, le), le)
    decreases |t|
  {
    if t != [] {
      var init, y := t[..|t| - 1], t[|t| - 1];
      assert t == init + [y];
      assert y in m && x in m;
      if le(y, x) {
        forall i | 0 <= i < |t| - 1 ensures le(t[i], x) {
          assert t[i] in m;
        }
      } else {
        assert le(x, y);
        assert multiset(init) + multiset{x} <= m;
        InsertSorted(init, x, le, m);
        InsertBounded(init, x, y, le);
      }
    }
  }

  /** When the comparator is a total preorder on the input, the result is ordered by it. */
  lemma {:induction false} SortSorted<T>(s: seq<T>, le: (T, T) -> bool)
    requires PreorderOn(multiset(s), le)
    ensures SortedBy(Sort(s, le), le)
    decreases |s|
  {
    if s != [] {
      var init, x := s[..|s| - 1], s[|s| - 1];
      assert s == init + [x];
      assert multiset(init) <= multiset(s);
      SortSorted(init, le);
      SortPermutes(init, le);
      InsertSorted(Sort(init, le), x, le, multiset(s));
    }
  }

  lemma TiesSnoc<T>(t: seq<T>, z: T, p: T, le: (T, T) -> bool)
    ensures Ties(t + [z], p, le) == Ties(t, p, le) + Tie(z, p, le)
  {
    assert (t + [z])[..|t|] == t;
  }

  /** No element of `t` that must follow `x` ties with `p` together with `x`. */
  ghost predicate TiesApart<T>(t: seq<T>, x: T, p: T, le: (T, T) -> bool) {
    forall i :: 0 <= i < |t| ==> le(t[i], x) || Tie(x, p, le) == [] || Tie(t[i], p, le) == []
  }

  lemma TiesApartFromPreorder<T>(t: seq<T>, x: T, p: T, le: (T, T) -> bool, m: multiset<T>)
    requires PreorderOn(m, le)
    requires multiset(t) + multiset{x, p} <= m
    ensures TiesApart(t, x, p, le)
  {
    forall i | 0 <= i < |t| ensures le(t[i], x) || Tie(x, p, le) == [] || Tie(t[i], p, le) == [] {
      assert t[i] in m && x in m && p in m;
    }
  }

  /** Inserting `x` adds `x` behind the elements already tied with it. */
  lemma {:induction false} InsertTies<T>(t: seq<T>, x: T, p: T, le: (T, T) -> bool)
    requires TiesApart(t, x, p, le)
    ensures Ties(Insert(t, x, le), p, le) == Ties(t, p, le) + Tie(x, p, le)
    decreases |t|
  {
    if t == [] {
      TiesSnoc([], x, p, le);
    } else if le(t[|t| - 1], x) {
      TiesSnoc(t, x, p, le);
    } else {
      var init, y := t[..|t| - 1], t[|t| - 1];
      assert TiesApart(init, x, p, le) by {
        forall i | 0 <= i < |init| ensures init[i] == t[i] { }
      }
      InsertTies(init, x, p, le);
      InsertTiesStep(init, x, y, p, le);
    }
  }

  /** The step of `InsertTies` where `x` moves in front of the last element `y`. */
  lemma InsertTiesStep<T>(init: seq<T>, x: T, y: T, p: T, le: (T, T) -> bool)
    requires Tie(x, p, le) == [] || Tie(y, p, le) == []
    requires Ties(Insert(init, x, le), p, le) == Ties(init, p, le) + Tie(x, p, le)
    ensures Ties(Insert(init, x, le) + [y], p, le) == Ties(init + [y], p, le) + Tie(x, p, le)
  {
    TiesSnoc(Insert(init, x, le), y, p, le);
    TiesSnoc(init, y, p, le);
    ConcatSwap(Ties(init, p, le), Tie(x, p, le), Tie(y, p, le));
  }

  lemma ConcatSwap<T>(a: seq<T>, b: seq<T>, c: seq<T>)
    requires b == [] || c == []
    ensures a + b + c == a + c + b
  {
    if b == [] {
      assert a + b == a;
    } else {
      assert a + c == a;
    }
  }

  /**
   * Stability: the elements the comparator considers equal to `p` come out in
   * the order they went in.
   */
  lemma {:induction false} SortTies<T>(s: seq<T>, p: T, le: (T, T) -> bool)
    requires PreorderOn(multiset(s) + multiset{p}, le)
    ensures Ties(Sort(s, le), p, le) == Ties(s, p, le)
    decreases |s|
  {
    if s != [] {
      var init, x := s[..|s| - 1], s[|s| - 1];
      assert s == init + [x];
      assert multiset(init) + multiset{p} <= multiset(s) + multiset{p};
      PreorderSub(multiset(init) + multiset{p}, multiset(s) + multiset{p}, le);
      SortTies(init, p, le);
      SortPermutes(init, le);
      TiesApartFromPreorder(Sort(init, le), x, p, le, multiset(s) + multiset{p});
      InsertTies(Sort(init, le), x, p, le);
    }
  }

  lemma PreorderSub<T>(a: multiset<T>, b: multiset<T>, le: (T, T) -> bool)
    requires a <= b && PreorderOn(b, le)
    ensures PreorderOn(a, le)
  {
  }
}
