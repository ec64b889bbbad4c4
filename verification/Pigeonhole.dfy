/** Counting lemmas: distinct numbers need room. */
module Pigeonhole {
  predicate Distinct<T(==)>(h: seq<T>) {
    forall i, j :: 0 <= i < j < |h| ==> h[i] != h[j]
  }

  lemma {:induction false} DistinctCount<T>(h: seq<T>, room: set<T>)
    requires Distinct(h)
    requires forall x :: x in h ==> x in room
    ensures |h| <= |room|
  {
    if h != [] {
      var last := |h| - 1;
      DistinctCount(h[..last], room - {h[last]});
    }
  }

  lemma {:induction false} CountSubset<T>(a: set<T>, b: set<T>)
    requires a <= b
    ensures |a| <= |b|
  {
    if x :| x in a {
      CountSubset(a - {x}, b - {x});
    }
  }

  function Range(lo: int, hi: int): (r: set<int>)
    requires lo <= hi
    ensures forall x :: x in r <==> lo <= x < hi
    ensures |r| == hi - lo
    decreases hi - lo
  {
    if lo == hi then {} else Range(lo, hi - 1) + {hi - 1}
  }
}
