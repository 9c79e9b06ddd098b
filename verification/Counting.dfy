/** Counting the elements of finite sets: the pigeonhole principle. */
module Counting {

  ghost function Indices(n: nat): (s: set<nat>)
    ensures |s| == n
    ensures forall k: nat :: k in s <==> k < n
  {
    if n == 0 then {} else
      var below := Indices(n - 1);
      assert n - 1 !in below;
      below + {n - 1}
  }

  ghost function Elements<T(!new)>(s: seq<T>): (r: set<T>)
    ensures forall x :: x in r <==> x in s
  {
    if s == [] then {} else Elements(s[..|s| - 1]) + {s[|s| - 1]}
  }

  ghost predicate Distinct<T(!new)>(s: seq<T>) {
    forall p, q :: 0 <= p < q < |s| ==> s[p] != s[q]
  }

  lemma {:induction false} CountDistinct<T(!new)>(s: seq<T>)
    requires Distinct(s)
    ensures |Elements(s)| == |s|
  {
    if s != [] {
      CountDistinct(s[..|s| - 1]);
    }
  }

  lemma {:induction false} SubsetSize<T>(a: set<T>, b: set<T>)
    requires a <= b
    ensures |a| <= |b|
  {
    if a != {} {
      var x :| x in a;
      SubsetSize(a - {x}, b - {x});
    }
  }

  /** More distinct names than a set holds: one of them is not in it. */
  lemma Pigeonhole<T(!new)>(s: seq<T>, holes: set<T>)
    requires Distinct(s) && |s| > |holes|
    ensures exists i :: 0 <= i < |s| && s[i] !in holes
  {
    if forall i :: 0 <= i < |s| ==> s[i] in holes {
      CountDistinct(s);
      SubsetSize(Elements(s), holes);
    }
  }

  /** Distinct indices that all fit leave none out. */
  lemma DistinctCovers(s: seq<nat>, i: nat)
    requires Distinct(s) && (forall p :: 0 <= p < |s| ==> s[p] < |s|) && i < |s|
    ensures i in s
  {
    CountDistinct(s);
    if i !in s {
      SubsetSize(Elements(s), Indices(|s|) - {i});
    }
  }
}
