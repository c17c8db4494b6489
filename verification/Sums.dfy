/** Sums over sequences, which do not depend on their order. */
module Sums {

  function Sum<T>(f: T -> nat, s: seq<T>): nat {
    if s == [] then 0 else Sum(f, s[..|s| - 1]) + f(s[|s| - 1])
  }

  lemma {:induction false} SumConcat<T>(f: T -> nat, s: seq<T>, t: seq<T>)
    ensures Sum(f, s + t) == Sum(f, s) + Sum(f, t)
  {
    if t == [] {
      assert s + t == s;
    } else {
      SumConcat(f, s, t[..|t| - 1]);
      assert (s + t)[..|s + t| - 1] == s + t[..|t| - 1];
    }
  }

  lemma {:induction false} SumOfPermutation<T>(f: T -> nat, s: seq<T>, t: seq<T>)
    requires multiset(s) == multiset(t)
    ensures Sum(f, s) == Sum(f, t)
  {
    if s != [] {
      var n, x := |s| - 1, s[|s| - 1];
      RemoveOne(s, n);
      assert s[..n] + s[n + 1..] == s[..n];
      assert x in multiset(t);
      var i :| 0 <= i < |t| && t[i] == x;
      RemoveOne(t, i);
      SumOfPermutation(f, s[..n], t[..i] + t[i + 1..]);
      SumWithoutOne(f, t, i);
    } else {
      assert |t| == |multiset(t)| == |multiset(s)| == 0;
    }
  }

  lemma RemoveOne<T>(s: seq<T>, i: nat)
    requires i < |s|
    ensures multiset(s[..i] + s[i + 1..]) == multiset(s) - multiset{s[i]}
  {
    assert s == s[..i] + [s[i]] + s[i + 1..];
  }

  lemma SumWithoutOne<T>(f: T -> nat, s: seq<T>, i: nat)
    requires i < |s|
    ensures Sum(f, s) == Sum(f, s[..i] + s[i + 1..]) + f(s[i])
  {
    assert s == s[..i + 1] + s[i + 1..];
    assert s[..i + 1][..i] == s[..i];
    SumConcat(f, s[..i + 1], s[i + 1..]);
    SumConcat(f, s[..i], s[i + 1..]);
  }

  lemma {:induction false} SumIsZero<T>(f: T -> nat, s: seq<T>)
    ensures Sum(f, s) == 0 <==> forall x :: x in s ==> f(x) == 0
  {
    if s == [] {
    } else {
      SumIsZero(f, s[..|s| - 1]);
      assert s == s[..|s| - 1] + [s[|s| - 1]];
    }
  }
}
