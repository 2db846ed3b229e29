/** Adding up over a sequence, and what changing one element does to the total. */
module Counting {

  function Sum<T>(s: seq<T>, f: T -> nat): nat {
    if s == [] then 0 else Sum(s[..|s| - 1], f) + f(s[|s| - 1])
  }

  lemma {:induction false} SumUpdate<T>(s: seq<T>, i: nat, x: T, f: T -> nat)
    requires i < |s|
    ensures Sum(s[i := x], f) + f(s[i]) == Sum(s, f) + f(x)
  {
    var rest := s[..|s| - 1];
    if i < |rest| {
      SumUpdate(rest, i, x, f);
      assert s[i := x][..|s| - 1] == rest[i := x];
    } else {
      assert s[i := x][..|s| - 1] == rest;
    }
  }

  lemma SumAppend<T>(s: seq<T>, x: T, f: T -> nat)
    ensures Sum(s + [x], f) == Sum(s, f) + f(x)
  {
    assert (s + [x])[..|s|] == s;
  }

  /** A change that leaves every summand alone leaves the total alone. */
  lemma {:induction false} SumSame<T>(s: seq<T>, r: seq<T>, f: T -> nat)
    requires |s| == |r| && forall i :: 0 <= i < |s| ==> f(r[i]) == f(s[i])
    ensures Sum(r, f) == Sum(s, f)
  {
    if s != [] {
      SumSame(s[..|s| - 1], r[..|r| - 1], f);
    }
  }
}
