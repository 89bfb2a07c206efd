/** Sequences without repetition, and pigeonhole arguments on sequences of numbers. */
module Counting {

  ghost predicate Distinct<T>(s: seq<T>) {
    forall i, j :: 0 <= i < j < |s| ==> s[i] != s[j]
  }

  ghost predicate Below(s: seq<int>, n: int) {
    forall i :: 0 <= i < |s| ==> 0 <= s[i] < n
  }

  ghost function Range(n: nat): (r: set<int>)
    ensures |r| == n && forall i :: i in r <==> 0 <= i < n
  {
    if n == 0 then {} else Range(n - 1) + {n - 1}
  }

  ghost function Image(s: seq<int>): (r: set<int>)
    ensures forall x :: x in r <==> x in s
  {
    if |s| == 0 then {} else
      assert s == s[..|s| - 1] + [s[|s| - 1]];
      Image(s[..|s| - 1]) + {s[|s| - 1]}
  }

  lemma {:induction false} DistinctSize(s: seq<int>)
    requires Distinct(s)
    ensures |Image(s)| == |s|
  {
    if |s| > 0 {
      DistinctSize(s[..|s| - 1]);
      assert s[|s| - 1] !in Image(s[..|s| - 1]);
    }
  }

  lemma SubsetSize<T>(a: set<T>, b: set<T>)
    requires a <= b
    ensures |a| <= |b| && (|a| == |b| ==> a == b)
  {
    assert b == a + (b - a);
    assert |b - a| == |b| - |a|;
    if |a| == |b| {
      assert b - a == {};
    }
  }

  /** Distinct numbers below n are at most n, and exactly n of them are all of them. */
  lemma Pigeonhole(s: seq<int>, n: nat)
    requires Distinct(s) && Below(s, n)
    ensures |s| <= n
    ensures |s| == n ==> forall v :: 0 <= v < n ==> v in s
  {
    DistinctSize(s);
    assert Image(s) <= Range(n);
    SubsetSize(Image(s), Range(n));
  }
}
