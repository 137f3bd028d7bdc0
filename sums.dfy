/** Sums over the query, a Python `set` whose iteration order the source
    does not control. `SetSum` picks the summands in an arbitrary order;
    `SetSumPick` shows that every order gives the same total, so a loop
    that visits the query in any order computes `SetSum`. */
module Sums {

  ghost function SetSum(s: set<string>, f: string -> real): real
    decreases s
  {
    if s == {} then 0.0
    else
      var w :| w in s;
      f(w) + SetSum(s - {w}, f)
  }

  /** Any element may be taken out first: the sum does not depend on the
      order in which the set is visited. */
  lemma {:induction false} SetSumPick(s: set<string>, f: string -> real, y: string)
    requires y in s
    ensures SetSum(s, f) == f(y) + SetSum(s - {y}, f)
    decreases s
  {
    var w :| w in s && SetSum(s, f) == f(w) + SetSum(s - {w}, f);
    if w != y {
      SetSumPick(s - {w}, f, y);
      SetSumPick(s - {y}, f, w);
      assert s - {w} - {y} == s - {y} - {w};
    }
  }

  /** A sum of non-negative terms is non-negative. */
  lemma {:induction false} SetSumNonNegative(s: set<string>, f: string -> real)
    requires forall w :: w in s ==> f(w) >= 0.0
    ensures SetSum(s, f) >= 0.0
    decreases s
  {
    if s != {} {
      var w :| w in s && SetSum(s, f) == f(w) + SetSum(s - {w}, f);
      SetSumNonNegative(s - {w}, f);
    }
  }

  /** An element whose term is zero can be dropped from the set. */
  lemma SetSumDropZero(s: set<string>, f: string -> real, y: string)
    requires y in s && f(y) == 0.0
    ensures SetSum(s, f) == SetSum(s - {y}, f)
  {
    SetSumPick(s, f, y);
  }
}
