/** Sums of a per-element weight over a sequence, used to count threads in a
    phase and to add up what they still owe. */
module Sums {

  function SumBy<T>(weight: T -> nat, s: seq<T>): nat {
    if s == [] then 0 else SumBy(weight, s[..|s| - 1]) + weight(s[|s| - 1])
  }

  lemma {:induction false} SumAppend<T>(weight: T -> nat, s: seq<T>, x: T)
    ensures SumBy(weight, s + [x]) == SumBy(weight, s) + weight(x)
  {
    assert (s + [x])[..|s|] == s;
  }

  lemma {:induction false} SumUpdate<T>(weight: T -> nat, s: seq<T>, i: nat, x: T)
    requires i < |s|
    ensures SumBy(weight, s[i := x]) + weight(s[i]) == SumBy(weight, s) + weight(x)
    decreases |s|
  {
    var n := |s| - 1;
    if i == n {
      assert s[i := x][..n] == s[..n];
    } else {
      assert s[i := x][..n] == s[..n][i := x];
      SumUpdate(weight, s[..n], i, x);
    }
  }

  lemma {:induction false} SumAtLeast<T>(weight: T -> nat, s: seq<T>, i: nat)
    requires i < |s|
    ensures weight(s[i]) <= SumBy(weight, s)
    decreases |s|
  {
    if i < |s| - 1 {
      SumAtLeast(weight, s[..|s| - 1], i);
    }
  }

  lemma {:induction false} SumWitness<T>(weight: T -> nat, s: seq<T>) returns (i: nat)
    requires SumBy(weight, s) > 0
    ensures i < |s| && weight(s[i]) > 0
    decreases |s|
  {
    if weight(s[|s| - 1]) > 0 {
      i := |s| - 1;
    } else {
      i := SumWitness(weight, s[..|s| - 1]);
    }
  }

  lemma {:induction false} SumAtMost<T>(weight: T -> nat, s: seq<T>, bound: nat)
    requires forall i :: 0 <= i < |s| ==> weight(s[i]) <= bound
    ensures SumBy(weight, s) <= |s| * bound
    decreases |s|
  {
    if s != [] {
      SumAtMost(weight, s[..|s| - 1], bound);
      assert (|s| - 1) * bound + bound == |s| * bound;
    }
  }

  lemma {:induction false} SumGrowth<T>(weight: T -> nat, s: seq<T>, t: seq<T>, each: nat)
    requires |s| == |t| && forall i :: 0 <= i < |s| ==> weight(t[i]) <= weight(s[i]) + each
    ensures SumBy(weight, t) <= SumBy(weight, s) + each * |s|
    decreases |s|
  {
    if s != [] {
      SumGrowth(weight, s[..|s| - 1], t[..|t| - 1], each);
      assert each * |s| == each * (|s| - 1) + each;
    }
  }
}
