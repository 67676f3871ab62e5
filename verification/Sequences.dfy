/** Sequences without repetition. */
module Sequences {

  ghost predicate NoDup<T>(s: seq<T>) {
    forall i, j :: 0 <= i < j < |s| ==> s[i] != s[j]
  }

  ghost function Elements<T>(s: seq<T>): set<T> {
    set x | x in s
  }

  lemma {:induction false} ElementsCount<T>(s: seq<T>)
    requires NoDup(s)
    ensures |Elements(s)| == |s|
  {
    if s != [] {
      var front := s[..|s| - 1];
      ElementsCount(front);
      assert s == front + [s[|s| - 1]];
      assert Elements(s) == Elements(front) + {s[|s| - 1]};
      assert s[|s| - 1] !in front;
    }
  }

  // The numbers below `n`.
  ghost function Below(n: nat): (b: set<nat>)
    ensures forall x: nat :: x in b <==> x < n
  {
    if n == 0 then {} else Below(n - 1) + {n - 1}
  }

  lemma {:induction false} BelowCount(n: nat)
    ensures |Below(n)| == n
  {
    if n > 0 {
      BelowCount(n - 1);
    }
  }

  lemma SubsetCount<T>(a: set<T>, b: set<T>)
    requires a <= b
    ensures |a| <= |b|
  {
    if a != {} {
      var x :| x in a;
      SubsetCount(a - {x}, b - {x});
    }
  }

  // Pigeonhole: distinct numbers below `n`, all different from `x`, leave room for `x`.
  lemma Pigeonhole(s: seq<nat>, n: nat, x: nat)
    requires NoDup(s) && (forall y :: y in s ==> y < n) && x < n && x !in s
    ensures |s| < n
  {
    ElementsCount(s);
    BelowCount(n);
    assert Elements(s) <= Below(n) - {x};
    SubsetCount(Elements(s), Below(n) - {x});
  }
}
