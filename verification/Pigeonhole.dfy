/** Counting arguments on index sequences and index sets. */
module Pigeonhole {
  import opened Types

  ghost predicate Distinct(q: seq<u32>) {
    forall i, j :: 0 <= i < j < |q| ==> q[i] != q[j]
  }

  ghost predicate InRange(n: nat, q: seq<u32>) {
    forall k :: 0 <= k < |q| ==> q[k] < n
  }

  /** The members of a sequence. */
  ghost function Members(q: seq<u32>): set<int> {
    set x: int | x in q
  }

  /** All the indices below `n`. */
  ghost function Below(n: nat): (r: set<int>)
    ensures forall x: int :: x in r <==> 0 <= x < n
  {
    if n == 0 then {} else Below(n - 1) + {n - 1}
  }

  lemma {:induction false} DistinctCount(q: seq<u32>)
    requires Distinct(q)
    ensures |Members(q)| == |q|
    decreases |q|
  {
    if q == [] {
    } else {
      var front := q[..|q| - 1];
      DistinctCount(front);
      assert Members(q) == Members(front) + {q[|q| - 1]};
    }
  }

  lemma {:induction false} BelowCount(n: nat)
    ensures |Below(n)| == n
  {
    if n > 0 {
      BelowCount(n - 1);
    }
  }

  lemma {:induction false} SubsetSize<T>(a: set<T>, b: set<T>)
    requires a <= b
    ensures |a| <= |b|
    decreases |a|
  {
    if a != {} {
      var x :| x in a;
      SubsetSize(a - {x}, b - {x});
    }
  }

  /** A subset of the same size is the whole set. */
  lemma SubsetFills<T>(a: set<T>, b: set<T>)
    requires a <= b && |a| == |b|
    ensures a == b
  {
    if x :| x in b && x !in a {
      SubsetSize(a + {x}, b);
    }
  }

  /** Distinct indices below `n` are at most `n` many. */
  lemma DistinctBound(q: seq<u32>, n: nat)
    requires Distinct(q) && InRange(n, q)
    ensures |q| <= n
  {
    DistinctCount(q);
    BelowCount(n);
    SubsetSize(Members(q), Below(n));
  }
}
