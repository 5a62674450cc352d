// Weights summed over a sequence.
module Sums {
  function Sum<T>(weight: T -> nat, s: seq<T>): nat {
    if s == [] then 0 else weight(s[0]) + Sum(weight, s[1..])
  }

  lemma {:induction false} SumUpdate<T>(weight: T -> nat, s: seq<T>, i: nat, x: T)
    requires i < |s|
    ensures Sum(weight, s[i := x]) + weight(s[i]) == Sum(weight, s) + weight(x)
  {
    if i == 0 {
      assert s[i := x][1..] == s[1..];
    } else {
      assert s[i := x][1..] == s[1..][i - 1 := x];
      SumUpdate(weight, s[1..], i - 1, x);
    }
  }

  lemma {:induction false} SumBound<T>(weight: T -> nat, s: seq<T>, bound: nat)
    requires forall x | x in s :: weight(x) <= bound
    ensures Sum(weight, s) <= bound * |s|
  {
    if s != [] {
      assert s[0] in s;
      assert forall x | x in s[1..] :: x in s;
      SumBound(weight, s[1..], bound);
      OneMore(bound, |s|);
    }
  }

  lemma OneMore(b: nat, n: nat)
    requires n > 0
    ensures b * n == b * (n - 1) + b
  {
  }

  lemma {:induction false} SumSame<T>(weight: T -> nat, s: seq<T>, t: seq<T>)
    requires |s| == |t| && forall i | 0 <= i < |s| :: weight(s[i]) == weight(t[i])
    ensures Sum(weight, s) == Sum(weight, t)
  {
    if s != [] {
      assert weight(s[0]) == weight(t[0]);
      assert forall i | 0 <= i < |s| - 1 :: s[1..][i] == s[i + 1] && t[1..][i] == t[i + 1];
      SumSame(weight, s[1..], t[1..]);
    }
  }

  lemma {:induction false} SumZero<T>(weight: T -> nat, s: seq<T>)
    requires forall i | 0 <= i < |s| :: weight(s[i]) == 0
    ensures Sum(weight, s) == 0
  {
    if s != [] {
      assert forall i | 0 <= i < |s| - 1 :: s[1..][i] == s[i + 1];
      SumZero(weight, s[1..]);
    }
  }

  lemma {:induction false} SumHas<T>(weight: T -> nat, s: seq<T>, i: nat)
    requires i < |s|
    ensures weight(s[i]) <= Sum(weight, s)
  {
    if i > 0 {
      SumHas(weight, s[1..], i - 1);
    }
  }
}
