/** Counting: n distinct numbers below n are all of them. */
module Pigeonhole {

  ghost predicate Distinct<T>(s: seq<T>) {
    forall i, j :: 0 <= i < j < |s| ==> s[i] != s[j]
  }

  ghost function Elements<T>(s: seq<T>): set<T> {
    set x | x in s
  }

  ghost function Range(n: nat): (r: set<nat>)
    ensures forall x :: x in r <==> 0 <= x < n
    ensures |r| == n
  {
    if n == 0 then {} else Range(n - 1) + {n - 1}
  }

  lemma {:induction false} ElementsSize<T>(s: seq<T>)
    ensures |Elements(s)| <= |s|
    ensures Distinct(s) ==> |Elements(s)| == |s|
  {
    if |s| > 0 {
      var front := s[..|s| - 1];
      ElementsSize(front);
      assert Elements(s) == Elements(front) + {s[|s| - 1]};
    }
  }

  lemma SubsetSize<T>(a: set<T>, b: set<T>)
    requires a <= b
    ensures |a| <= |b|
  {
    assert b == a + (b - a);
  }

  lemma Covers(s: seq<nat>, v: nat)
    requires Distinct(s)
    requires forall i :: 0 <= i < |s| ==> s[i] < |s|
    requires v < |s|
    ensures v in s
  {
    ElementsSize(s);
    if v !in s {
      SubsetSize(Elements(s), Range(|s|) - {v});
    }
  }
}
