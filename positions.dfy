/**
 * Removing elements by position: `Array.prototype.filter((_, index) => ...)`
 * over a set of positions, and `splice(index, 1)`.
 */
module Positions {

  /** The elements among the first `n` of `s` whose position is not in `d`, in order. */
  function KeepPrefix<T>(s: seq<T>, d: set<nat>, n: nat): seq<T>
    requires n <= |s|
  {
    if n == 0 then []
    else if n - 1 in d then KeepPrefix(s, d, n - 1)
    else KeepPrefix(s, d, n - 1) + [s[n - 1]]
  }

  /** `s` without the elements at the positions in `d`. */
  function Without<T>(s: seq<T>, d: set<nat>): seq<T> {
    KeepPrefix(s, d, |s|)
  }

  /** `a.splice(i, 1)` on a copy: removes the element at `i`, and nothing when `i` is past the end. */
  function Splice<T>(s: seq<T>, i: nat): (r: seq<T>)
    ensures i < |s| ==> |r| == |s| - 1
    ensures i >= |s| ==> r == s
    ensures forall k :: 0 <= k < i && k < |s| ==> r[k] == s[k]
    ensures forall k :: i <= k < |r| ==> r[k] == s[k + 1]
  {
    if i < |s| then s[..i] + s[i + 1..] else s
  }

  /** The positions below `n` that are not in `d`, in increasing order. */
  function KeptPositions(d: set<nat>, n: nat): seq<nat> {
    if n == 0 then []
    else if n - 1 in d then KeptPositions(d, n - 1)
    else KeptPositions(d, n - 1) + [n - 1]
  }

  /** The positions of `d` below `n`. */
  function Below(d: set<nat>, n: nat): set<nat> {
    set i | i in d && i < n
  }

  lemma {:induction false} KeepPrefixLength<T>(s: seq<T>, d: set<nat>, n: nat)
    requires n <= |s|
    ensures |KeepPrefix(s, d, n)| + |Below(d, n)| == n
    decreases n
  {
    if n > 0 {
      KeepPrefixLength(s, d, n - 1);
      if n - 1 in d {
        assert Below(d, n) == Below(d, n - 1) + {n - 1};
      } else {
        assert Below(d, n) == Below(d, n - 1);
      }
    }
  }

  /** Exactly one element goes per position of `d` that exists; the rest stay. */
  lemma WithoutLength<T>(s: seq<T>, d: set<nat>)
    ensures |Without(s, d)| == |s| - |Below(d, |s|)|
  {
    KeepPrefixLength(s, d, |s|);
  }

  /** Positions past the end have no effect. */
  lemma {:induction false} WithoutIgnoresOutOfRange<T>(s: seq<T>, d: set<nat>, n: nat)
    requires n <= |s|
    ensures KeepPrefix(s, d, n) == KeepPrefix(s, Below(d, |s|), n)
    decreases n
  {
    if n > 0 {
      WithoutIgnoresOutOfRange(s, d, n - 1);
    }
  }

  /** An element survives exactly when some position holding it is not removed. */
  lemma {:induction false} WithoutMembers<T>(s: seq<T>, d: set<nat>, n: nat)
    requires n <= |s|
    ensures forall i :: 0 <= i < n && i !in d ==> s[i] in KeepPrefix(s, d, n)
    ensures forall x :: x in KeepPrefix(s, d, n) ==> exists i :: 0 <= i < n && i !in d && s[i] == x
    decreases n
  {
    if n > 0 {
      WithoutMembers(s, d, n - 1);
    }
  }

  /** The length after removal depends only on the length before. */
  lemma {:induction false} KeepPrefixSameLength<T, U>(a: seq<T>, b: seq<U>, d: set<nat>, n: nat)
    requires n <= |a| && n <= |b|
    ensures |KeepPrefix(a, d, n)| == |KeepPrefix(b, d, n)|
    decreases n
  {
    if n > 0 {
      KeepPrefixSameLength(a, b, d, n - 1);
    }
  }

  lemma {:induction false} KeepPrefixBelow<T>(s: seq<T>, e: set<nat>, m: nat, n: nat)
    requires n <= |s| && n <= m + 1
    requires forall x :: x in e ==> x > m
    ensures KeepPrefix(s, e, n) == s[..n]
    ensures KeepPrefix(s, e + {m}, n) == s[..n] || (n == m + 1 && KeepPrefix(s, e + {m}, n) == s[..m])
    decreases n
  {
    if n > 0 {
      KeepPrefixBelow(s, e, m, n - 1);
      assert s[..n] == s[..n - 1] + [s[n - 1]];
    }
  }

  /**
   * Splicing out position `m` after the positions of `e`, all above `m`, were
   * removed, removes `m` as well: the descending `forEach` of the deletes.
   */
  lemma {:induction false} SpliceStep<T>(s: seq<T>, e: set<nat>, m: nat, n: nat)
    requires n <= |s|
    requires forall x :: x in e ==> x > m
    ensures Splice(KeepPrefix(s, e, n), m) == KeepPrefix(s, e + {m}, n)
    decreases n
  {
    if n <= m + 1 {
      KeepPrefixBelow(s, e, m, n);
      if n == m + 1 {
        assert KeepPrefix(s, e + {m}, n) == KeepPrefix(s, e + {m}, m);
        KeepPrefixBelow(s, e, m, m);
        assert s[..n][..m] == s[..m];
      }
    } else {
      SpliceStep(s, e, m, n - 1);
      var k := KeepPrefix(s, e, n - 1);
      assert m < |k| by {
        KeepPrefixBelow(s, e, m, m + 1);
        KeepPrefixGrows(s, e, m + 1, n - 1);
      }
      if n - 1 !in e {
        assert (k + [s[n - 1]])[..m] == k[..m];
        assert (k + [s[n - 1]])[m + 1..] == k[m + 1..] + [s[n - 1]];
      }
    }
  }

  lemma {:induction false} KeepPrefixGrows<T>(s: seq<T>, d: set<nat>, a: nat, b: nat)
    requires a <= b <= |s|
    ensures |KeepPrefix(s, d, a)| <= |KeepPrefix(s, d, b)|
    decreases b
  {
    if a < b {
      KeepPrefixGrows(s, d, a, b - 1);
    }
  }

  /** The kept positions are exactly the positions below `n` outside `d`, each once, ascending. */
  lemma {:induction false} KeptPositionsSpec(d: set<nat>, n: nat)
    ensures forall j: nat :: j in KeptPositions(d, n) <==> j < n && j !in d
    ensures forall a, b :: 0 <= a < b < |KeptPositions(d, n)| ==> KeptPositions(d, n)[a] < KeptPositions(d, n)[b]
    decreases n
  {
    if n > 0 {
      KeptPositionsSpec(d, n - 1);
      var p := KeptPositions(d, n - 1);
      if n - 1 !in d {
        var q := p + [n - 1];
        assert KeptPositions(d, n) == q;
        assert forall j: nat :: j in q <==> j in p || j == n - 1;
        forall a, b | 0 <= a < b < |q|
          ensures q[a] < q[b]
        {
          if b == |p| {
            assert q[a] == p[a] && p[a] in p;
          }
        }
      }
    }
  }

  /**
   * The `k`-th element left after the removal is the element of `s` at the
   * `k`-th position that is kept.
   */
  lemma {:induction false} KeepPrefixPositions<T>(s: seq<T>, d: set<nat>, n: nat)
    requires n <= |s|
    ensures |KeepPrefix(s, d, n)| == |KeptPositions(d, n)|
    ensures forall k :: 0 <= k < |KeptPositions(d, n)| ==>
      KeptPositions(d, n)[k] < n && KeepPrefix(s, d, n)[k] == s[KeptPositions(d, n)[k]]
    decreases n
  {
    if n > 0 {
      KeepPrefixPositions(s, d, n - 1);
    }
  }

  /** `Without` keeps, in order, the elements at the kept positions. */
  lemma WithoutPositions<T>(s: seq<T>, d: set<nat>)
    ensures |Without(s, d)| == |KeptPositions(d, |s|)|
    ensures forall k :: 0 <= k < |Without(s, d)| ==>
      KeptPositions(d, |s|)[k] < |s| && Without(s, d)[k] == s[KeptPositions(d, |s|)[k]]
  {
    KeepPrefixPositions(s, d, |s|);
  }
}
