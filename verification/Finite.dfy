/** Counting: the sizes of finite sets of small numbers. */
module Finite {
  ghost function Interval(n: nat): (s: set<nat>)
    ensures |s| == n && forall x: nat :: x in s <==> x < n
  {
    if n == 0 then {} else Interval(n - 1) + {n - 1}
  }

  lemma {:induction false} SubsetSize<T>(s: set<T>, t: set<T>)
    requires s <= t
    ensures |s| <= |t|
  {
    if s != {} {
      var x :| x in s;
      SubsetSize(s - {x}, t - {x});
    }
  }

  /** A set with as many elements as one that contains it is that set. */
  lemma SubsetOfSameSize<T>(s: set<T>, t: set<T>)
    requires s <= t && |s| >= |t|
    ensures s == t
  {
    if s != t {
      var x :| x in t && x !in s;
      SubsetSize(s, t - {x});
    }
  }
}
