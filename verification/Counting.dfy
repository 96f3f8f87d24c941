/** Distinct elements, and distinct numbers below a bound. */
module Counting {
  ghost predicate AllDistinct<T>(s: seq<T>) {
    forall i, k :: 0 <= i < k < |s| ==> s[i] != s[k]
  }

  function UpTo(n: nat): set<nat> {
    if n == 0 then {} else UpTo(n - 1) + {n - 1}
  }

  lemma {:induction false} UpToIs(n: nat)
    ensures |UpTo(n)| == n && forall x: nat :: x in UpTo(n) <==> x < n
  {
    if n > 0 { UpToIs(n - 1); }
  }

  function Elements(s: seq<nat>): set<nat> {
    if s == [] then {} else {s[0]} + Elements(s[1..])
  }

  lemma {:induction false} InElements(s: seq<nat>, x: nat)
    ensures x in Elements(s) <==> x in s
  {
    if s != [] {
      assert s == [s[0]] + s[1..];
      InElements(s[1..], x);
    }
  }

  lemma {:induction false} ElementsSize(s: seq<nat>)
    requires AllDistinct(s)
    ensures |Elements(s)| == |s|
  {
    if s != [] {
      InElements(s[1..], s[0]);
      ElementsSize(s[1..]);
    }
  }

  lemma {:induction false} SubsetSize(x: set<nat>, y: set<nat>)
    requires x <= y
    ensures |x| <= |y|
  {
    if e :| e in x {
      SubsetSize(x - {e}, y - {e});
    }
  }

  /** Distinct numbers below `n` are at most `n` many. */
  lemma AtMost(s: seq<nat>, n: nat)
    requires AllDistinct(s) && forall i :: 0 <= i < |s| ==> s[i] < n
    ensures |s| <= n
  {
    UpToIs(n);
    ElementsSize(s);
    forall x | x in Elements(s) ensures x in UpTo(n) { InElements(s, x); }
    SubsetSize(Elements(s), UpTo(n));
  }
}
