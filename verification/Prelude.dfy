/** Result types and a few facts about sequences that several models share. */
module Prelude {

  datatype Option<+T> = None | Some(value: T)

  datatype Result<+T, +E> = Ok(value: T) | Err(error: E)

  /** The elements of s that satisfy p, in order. */
  function Filter<T(!new)>(s: seq<T>, p: T -> bool): (r: seq<T>)
    ensures forall x :: x in r <==> x in s && p(x)
  {
    if s == [] then []
    else if p(s[|s| - 1]) then Filter(s[..|s| - 1], p) + [s[|s| - 1]]
    else Filter(s[..|s| - 1], p)
  }

  lemma {:induction false} FilterConcat<T(!new)>(a: seq<T>, b: seq<T>, p: T -> bool)
    ensures Filter(a + b, p) == Filter(a, p) + Filter(b, p)
  {
    if b == [] {
      assert a + b == a;
    } else {
      var n := |b| - 1;
      assert (a + b)[..|a + b| - 1] == a + b[..n];
      FilterConcat(a, b[..n], p);
    }
  }

  lemma FilterSnoc<T(!new)>(s: seq<T>, x: T, p: T -> bool)
    ensures Filter(s + [x], p) == if p(x) then Filter(s, p) + [x] else Filter(s, p)
  {
    assert (s + [x])[..|s|] == s;
  }

  /** f applied to every element of s, in order. */
  function Map<S, T>(s: seq<S>, f: S -> T): (r: seq<T>)
    ensures |r| == |s|
    ensures forall i :: 0 <= i < |s| ==> r[i] == f(s[i])
  {
    seq(|s|, i requires 0 <= i < |s| => f(s[i]))
  }

  function Sum(s: seq<int>): int {
    if s == [] then 0 else Sum(s[..|s| - 1]) + s[|s| - 1]
  }

  lemma {:induction false} SumConcat(a: seq<int>, b: seq<int>)
    ensures Sum(a + b) == Sum(a) + Sum(b)
  {
    if b == [] {
      assert a + b == a;
    } else {
      assert (a + b)[..|a + b| - 1] == a + b[..|b| - 1];
      SumConcat(a, b[..|b| - 1]);
    }
  }

  function Max(a: int, b: int): int {
    if a >= b then a else b
  }

  function Min(a: int, b: int): int {
    if a <= b then a else b
  }

  lemma ConcatAssociative<T>(a: seq<T>, b: seq<T>, c: seq<T>)
    ensures (a + b) + c == a + (b + c)
  {
  }

  lemma TakeDropAt<T>(s: seq<T>, k: nat)
    requires k <= |s|
    ensures s[..k] + s[k..] == s
  {
  }

  lemma MemberOf<T(!new)>(s: set<T>) returns (x: T)
    requires s != {}
    ensures x in s
  {
    x :| x in s;
  }

  function Pow2(n: nat): (p: nat)
    ensures p > 0
  {
    if n == 0 then 1 else 2 * Pow2(n - 1)
  }

  predicate StrictlyAscending(s: seq<int>) {
    forall i, j | 0 <= i < j < |s| :: s[i] < s[j]
  }

  lemma SameMembers<T>(a: seq<T>, b: seq<T>)
    requires multiset(a) == multiset(b)
    ensures |a| == |b|
    ensures forall x :: x in a <==> x in b
  {
    assert |multiset(a)| == |multiset(b)|;
    assert forall x :: x in a <==> x in multiset(a);
    assert forall x :: x in b <==> x in multiset(b);
  }
}
