/** `sorted(keys, key=score, reverse=True)[:n]`, the last step of both
    rankers, as a pure function: a stable insertion sort into descending
    order of score, followed by taking the first `n` elements.

    The comparison is a parameter `above` (strictly better), which must be
    a strict total order on scores: `Greater` for the document ranker's
    real scores, `LexGreater` for the sentence ranker's pairs. Python's sort
    is stable even with `reverse=True`, so keys of equal score keep their
    input order; `SortStable` and `TopStable` state that. */
module Ranking {
  import opened Corpus

  /** Asymmetric, transitive and total on distinct scores. */
  ghost predicate StrictTotalOrder<S(!new)>(above: (S, S) -> bool)
  {
    (forall a, b :: above(a, b) ==> !above(b, a)) &&
    (forall a, b, c :: above(a, b) && above(b, c) ==> above(a, c)) &&
    (forall a, b :: a != b ==> above(a, b) || above(b, a))
  }

  /** Python's `>` on floats (read as exact reals). */
  function Greater(a: real, b: real): bool
  {
    a > b
  }

  /** Python's `>` on a pair: the first components decide, the second breaks ties. */
  function LexGreater(a: (real, real), b: (real, real)): bool
  {
    a.0 > b.0 || (a.0 == b.0 && a.1 > b.1)
  }

  lemma GreaterIsStrictTotalOrder()
    ensures StrictTotalOrder(Greater)
  {
  }

  lemma LexGreaterIsStrictTotalOrder()
    ensures StrictTotalOrder(LexGreater)
  {
  }

  /** No key is strictly above an earlier one. */
  ghost predicate Descending<K, S(!new)>(xs: seq<K>, score: K -> S, above: (S, S) -> bool)
  {
    forall i, j :: 0 <= i < j < |xs| ==> !above(score(xs[j]), score(xs[i]))
  }

  /** Puts `x` in front of the first element that is not strictly above it,
      so `x` precedes every element of equal score. */
  function Insert<K, S>(x: K, ys: seq<K>, score: K -> S, above: (S, S) -> bool): (r: seq<K>)
    ensures |r| == |ys| + 1
    ensures multiset(r) == multiset(ys) + multiset{x}
  {
    if ys == [] || !above(score(ys[0]), score(x)) then [x] + ys
    else
      assert ys == [ys[0]] + ys[1..];
      [ys[0]] + Insert(x, ys[1..], score, above)
  }

  /** Stable sort into descending order of score. */
  function SortDesc<K, S>(xs: seq<K>, score: K -> S, above: (S, S) -> bool): (r: seq<K>)
    ensures |r| == |xs|
    ensures multiset(r) == multiset(xs)
  {
    if xs == [] then []
    else
      assert xs == [xs[0]] + xs[1..];
      Insert(xs[0], SortDesc(xs[1..], score, above), score, above)
  }

  /** `sorted(xs, key=score, reverse=True)[:n]`. */
  function Top<K, S>(xs: seq<K>, score: K -> S, above: (S, S) -> bool, n: nat): (r: seq<K>)
    ensures |r| == Min(n, |xs|)
    ensures n == 0 ==> r == []
  {
    SortDesc(xs, score, above)[..Min(n, |xs|)]
  }

  /** The keys of score `s`, in the order they occur. */
  function WithScore<K, S(==)>(xs: seq<K>, score: K -> S, s: S): seq<K>
  {
    if xs == [] then []
    else (if score(xs[0]) == s then [xs[0]] else []) + WithScore(xs[1..], score, s)
  }

  // ---------------------------------------------------------------- order

  lemma {:induction false} InsertDescending<K, S(!new)>(x: K, ys: seq<K>, score: K -> S, above: (S, S) -> bool)
    requires StrictTotalOrder(above)
    requires Descending(ys, score, above)
    ensures Descending(Insert(x, ys, score, above), score, above)
  {
    if ys == [] || !above(score(ys[0]), score(x)) {
      var r := [x] + ys;
      forall i, j | 0 <= i < j < |r| ensures !above(score(r[j]), score(r[i])) {
        if i == 0 {
          if j > 1 {
            assert !above(score(ys[j - 1]), score(ys[0]));
          }
        } else {
          assert r[i] == ys[i - 1] && r[j] == ys[j - 1];
        }
      }
    } else {
      var rest := Insert(x, ys[1..], score, above);
      InsertDescending(x, ys[1..], score, above);
      var r := [ys[0]] + rest;
      forall i, j | 0 <= i < j < |r| ensures !above(score(r[j]), score(r[i])) {
        if i == 0 {
          var z := r[j];
          assert z in multiset(rest);
          assert z in multiset(ys[1..]) + multiset{x};
          if z != x {
            assert z in ys[1..];
            var k :| 0 <= k < |ys[1..]| && ys[1..][k] == z;
            assert ys[k + 1] == z;
          }
        } else {
          assert r[i] == rest[i - 1] && r[j] == rest[j - 1];
        }
      }
    }
  }

  /** The sort orders its keys by non-increasing score. */
  lemma {:induction false} SortDescending<K, S(!new)>(xs: seq<K>, score: K -> S, above: (S, S) -> bool)
    requires StrictTotalOrder(above)
    ensures Descending(SortDesc(xs, score, above), score, above)
  {
    if xs != [] {
      SortDescending(xs[1..], score, above);
      InsertDescending(xs[0], SortDesc(xs[1..], score, above), score, above);
    }
  }

  // ------------------------------------------------------------ stability

  lemma {:induction false} WithScoreAppend<K, S(!new)>(a: seq<K>, b: seq<K>, score: K -> S, s: S)
    ensures WithScore(a + b, score, s) == WithScore(a, score, s) + WithScore(b, score, s)
  {
    if a != [] {
      assert (a + b)[0] == a[0];
      assert (a + b)[1..] == a[1..] + b;
      WithScoreAppend(a[1..], b, score, s);
    } else {
      assert a + b == b;
    }
  }

  lemma WithScoreCons<K, S(!new)>(k: K, rest: seq<K>, score: K -> S, s: S)
    ensures WithScore([k] + rest, score, s) == (if score(k) == s then [k] else []) + WithScore(rest, score, s)
  {
    assert ([k] + rest)[0] == k && ([k] + rest)[1..] == rest;
  }

  /** Inserting `x` puts it in front of every key of its score, leaving
      their order as it was. Only irreflexivity of `above` is needed. */
  lemma {:induction false} InsertWithScore<K, S(!new)>(x: K, ys: seq<K>, score: K -> S, above: (S, S) -> bool, s: S)
    requires forall a :: !above(a, a)
    ensures WithScore(Insert(x, ys, score, above), score, s)
         == (if score(x) == s then [x] else []) + WithScore(ys, score, s)
  {
    if ys == [] || !above(score(ys[0]), score(x)) {
      WithScoreCons(x, ys, score, s);
    } else {
      var y := ys[0];
      var rest := Insert(x, ys[1..], score, above);
      assert Insert(x, ys, score, above) == [y] + rest;
      assert ys == [y] + ys[1..];
      InsertWithScore(x, ys[1..], score, above, s);
      WithScoreCons(y, rest, score, s);
      WithScoreCons(y, ys[1..], score, s);
      assert score(y) != score(x) by {
        assert !above(score(x), score(x));
      }
    }
  }

  /** Stability: for every score, the keys having it come out of the sort
      in the order they went in. */
  lemma {:induction false} SortStable<K, S(!new)>(xs: seq<K>, score: K -> S, above: (S, S) -> bool, s: S)
    requires StrictTotalOrder(above)
    ensures WithScore(SortDesc(xs, score, above), score, s) == WithScore(xs, score, s)
  {
    if xs != [] {
      SortStable(xs[1..], score, above, s);
      InsertWithScore(xs[0], SortDesc(xs[1..], score, above), score, above, s);
    }
  }

  lemma WithScoreOfPrefix<K, S(!new)>(t: seq<K>, m: nat, score: K -> S, s: S)
    requires m <= |t|
    ensures WithScore(t[..m], score, s) <= WithScore(t, score, s)
  {
    assert t == t[..m] + t[m..];
    WithScoreAppend(t[..m], t[m..], score, s);
  }

  // --------------------------------------------------------------- top n

  /** `Top` takes each of its keys from `xs`, none more often than it
      occurs there: a sub-permutation of the input. */
  lemma TopSubPermutation<K, S(!new)>(xs: seq<K>, score: K -> S, above: (S, S) -> bool, n: nat)
    ensures multiset(Top(xs, score, above, n)) <= multiset(xs)
    ensures forall k :: k in Top(xs, score, above, n) ==> k in xs
  {
    var t := SortDesc(xs, score, above);
    var m := Min(n, |xs|);
    assert t == t[..m] + t[m..];
    assert multiset(t) == multiset(t[..m]) + multiset(t[m..]);
    forall k | k in t[..m] ensures k in xs {
      assert k in multiset(t[..m]);
      assert k in multiset(xs);
    }
  }

  /** `Top` lists its keys by non-increasing score. */
  lemma TopDescending<K, S(!new)>(xs: seq<K>, score: K -> S, above: (S, S) -> bool, n: nat)
    requires StrictTotalOrder(above)
    ensures Descending(Top(xs, score, above, n), score, above)
  {
    SortDescending(xs, score, above);
  }

  /** Stable ties: the keys of any one score that `Top` keeps are the
      earliest of that score in `xs`, in their input order. */
  lemma TopStable<K, S(!new)>(xs: seq<K>, score: K -> S, above: (S, S) -> bool, n: nat, s: S)
    requires StrictTotalOrder(above)
    ensures WithScore(Top(xs, score, above, n), score, s) <= WithScore(xs, score, s)
  {
    SortStable(xs, score, above, s);
    WithScoreOfPrefix(SortDesc(xs, score, above), Min(n, |xs|), score, s);
  }

  /** The keys left out are none of them strictly above a key kept: `Top`
      keeps the `n` best. */
  lemma TopKeepsBest<K, S(!new)>(xs: seq<K>, score: K -> S, above: (S, S) -> bool, n: nat)
    requires StrictTotalOrder(above)
    ensures forall x, y :: x in xs && x !in Top(xs, score, above, n) && y in Top(xs, score, above, n)
              ==> !above(score(x), score(y))
  {
    var t := SortDesc(xs, score, above);
    var m := Min(n, |xs|);
    SortDescending(xs, score, above);
    forall x, y | x in xs && x !in t[..m] && y in t[..m] ensures !above(score(x), score(y)) {
      assert x in multiset(t);
      var i :| 0 <= i < |t| && t[i] == x;
      var j :| 0 <= j < m && t[..m][j] == y;
      assert forall q :: 0 <= q < m ==> t[..m][q] == t[q];
      assert i >= m;
    }
  }

  // ------------------------------------------------------------ distinct

  lemma {:induction false} InsertDistinct<K, S(!new)>(x: K, ys: seq<K>, score: K -> S, above: (S, S) -> bool)
    requires Distinct(ys) && x !in ys
    ensures Distinct(Insert(x, ys, score, above))
  {
    if ys != [] && above(score(ys[0]), score(x)) {
      var rest := Insert(x, ys[1..], score, above);
      InsertDistinct(x, ys[1..], score, above);
      forall k | 0 <= k < |ys| - 1 ensures ys[1..][k] != ys[0] {
        assert ys[k + 1] != ys[0];
      }
      assert ys[0] !in multiset(ys[1..]) + multiset{x};
      var r := [ys[0]] + rest;
      forall i, j | 0 <= i < j < |r| ensures r[i] != r[j] {
        if i == 0 {
          assert r[j] == rest[j - 1];
        } else {
          assert r[i] == rest[i - 1] && r[j] == rest[j - 1];
        }
      }
    }
  }

  lemma {:induction false} SortDistinct<K, S(!new)>(xs: seq<K>, score: K -> S, above: (S, S) -> bool)
    requires Distinct(xs)
    ensures Distinct(SortDesc(xs, score, above))
  {
    if xs != [] {
      var rest := xs[1..];
      forall i, j | 0 <= i < j < |rest| ensures rest[i] != rest[j] {
        assert xs[i + 1] != xs[j + 1];
      }
      SortDistinct(rest, score, above);
      forall k | 0 <= k < |rest| ensures rest[k] != xs[0] {
        assert xs[k + 1] != xs[0];
      }
      assert xs[0] !in multiset(SortDesc(rest, score, above));
      InsertDistinct(xs[0], SortDesc(rest, score, above), score, above);
    }
  }

  /** A ranking of distinct keys repeats none of them. */
  lemma TopDistinct<K, S(!new)>(xs: seq<K>, score: K -> S, above: (S, S) -> bool, n: nat)
    requires Distinct(xs)
    ensures Distinct(Top(xs, score, above, n))
  {
    SortDistinct(xs, score, above);
  }

  // ---------------------------------------------------------- congruence

  lemma {:induction false} InsertCongruent<K, S(!new)>(x: K, ys: seq<K>, f: K -> S, g: K -> S, above: (S, S) -> bool)
    requires f(x) == g(x)
    requires forall y :: y in ys ==> f(y) == g(y)
    ensures Insert(x, ys, f, above) == Insert(x, ys, g, above)
  {
    if ys != [] {
      assert ys[0] in ys;
      InsertCongruent(x, ys[1..], f, g, above);
    }
  }

  /** The sort looks at scores of the listed keys only. */
  lemma {:induction false} SortCongruent<K, S(!new)>(xs: seq<K>, f: K -> S, g: K -> S, above: (S, S) -> bool)
    requires forall x :: x in xs ==> f(x) == g(x)
    ensures SortDesc(xs, f, above) == SortDesc(xs, g, above)
  {
    if xs != [] {
      assert xs[0] in xs;
      SortCongruent(xs[1..], f, g, above);
      var ys := SortDesc(xs[1..], f, above);
      forall y | y in ys ensures f(y) == g(y) {
        assert y in multiset(xs[1..]);
      }
      InsertCongruent(xs[0], ys, f, g, above);
    }
  }
}
