/** Regrouping of concatenations, sequences without repetition, and rings. */
module Sequences {
  ghost predicate Distinct<T>(s: seq<T>) {
    forall i, j :: 0 <= i < j < |s| ==> s[i] != s[j]
  }

  /** Position i of a queue that starts at `front` in a ring of n items. */
  function At(front: nat, i: nat, n: nat): (r: nat)
    requires front < n && i <= n
    ensures r < n
  {
    if front + i < n then front + i else front + i - n
  }

  lemma Assoc<T>(a: seq<T>, b: seq<T>, c: seq<T>)
    ensures a + b + c == a + (b + c)
  {}

  lemma NoneRight<T>(a: seq<T>)
    ensures a + [] == a && [] + a == a
  {}

  /** Dropping the last element of a sequence that was just extended, and the reverse. */
  lemma LastOff<T>(a: seq<T>, x: T)
    ensures |a + [x]| == |a| + 1 && (a + [x])[..|a|] == a && (a + [x])[|a|] == x
  {}

  lemma FirstOff<T>(a: seq<T>, b: seq<T>)
    requires a != []
    ensures (a + b)[0] == a[0] && (a + b)[1..] == a[1..] + b
  {}

  lemma SplitAt<T>(a: seq<T>, i: nat)
    requires i <= |a|
    ensures a == a[..i] + a[i..]
  {}

  lemma LastSplit<T>(a: seq<T>)
    requires a != []
    ensures a == a[..|a| - 1] + [a[|a| - 1]]
  {}

  lemma SliceOf<T>(a: seq<T>, lo: nat, hi: nat, i: nat, j: nat)
    requires lo <= hi <= |a| && i <= j <= hi - lo
    ensures a[lo..hi][i..j] == a[lo + i..lo + j]
  {
    var u, v := a[lo..hi][i..j], a[lo + i..lo + j];
    assert |u| == |v| && forall x :: 0 <= x < |u| ==> u[x] == v[x];
  }
}
