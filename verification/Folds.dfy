/**
 Sums, counts and minima over a list, as folds of a commutative monoid, and what every such fold
 keeps: concatenation adds up, and the order of the elements does not matter.
 */
module Folds {
  import opened Prelude
  import opened Sorting

  function Fold<T, A>(s: seq<T>, f: T -> A, plus: (A, A) -> A, zero: A): A {
    if s == [] then zero else plus(Fold(s[..|s| - 1], f, plus, zero), f(s[|s| - 1]))
  }

  lemma FoldSnoc<T, A>(s: seq<T>, x: T, f: T -> A, plus: (A, A) -> A, zero: A)
    ensures Fold(s + [x], f, plus, zero) == plus(Fold(s, f, plus, zero), f(x))
  {
    assert (s + [x])[..|s|] == s;
  }

  ghost predicate CommutativeMonoid<A(!new)>(plus: (A, A) -> A, zero: A) {
    && (forall x :: plus(zero, x) == x && plus(x, zero) == x)
    && (forall x, y :: plus(x, y) == plus(y, x))
    && forall x, y, z :: plus(plus(x, y), z) == plus(x, plus(y, z))
  }

  lemma {:induction false} FoldConcat<T, A(!new)>(a: seq<T>, b: seq<T>, f: T -> A, plus: (A, A) -> A, zero: A)
    requires CommutativeMonoid(plus, zero)
    ensures Fold(a + b, f, plus, zero) == plus(Fold(a, f, plus, zero), Fold(b, f, plus, zero))
  {
    if b == [] {
      assert a + b == a;
    } else {
      var n := |b| - 1;
      assert (a + b)[..|a + b| - 1] == a + b[..n];
      FoldConcat(a, b[..n], f, plus, zero);
    }
  }

  /** Folding two permutations of a list gives the same result. */
  lemma {:induction false} FoldPermutation<T, A(!new)>(a: seq<T>, b: seq<T>, f: T -> A, plus: (A, A) -> A, zero: A)
    requires CommutativeMonoid(plus, zero) && multiset(a) == multiset(b)
    ensures Fold(a, f, plus, zero) == Fold(b, f, plus, zero)
    decreases |a|
  {
    hide CommutativeMonoid;
    if a == [] {
      assert |multiset(b)| == 0;
    } else {
      var n := |a| - 1;
      DropLast(a);
      assert a[n] in multiset(b);
      var i :| 0 <= i < |b| && b[i] == a[n];
      FoldRemove(b, i, f, plus, zero);
      RemoveOne(b, i);
      FoldPermutation(a[..n], b[..i] + b[i + 1..], f, plus, zero);
    }
  }

  lemma RemoveOne<T>(b: seq<T>, i: nat)
    requires i < |b|
    ensures multiset(b[..i] + b[i + 1..]) == multiset(b) - multiset{b[i]}
  {
    assert b == b[..i] + ([b[i]] + b[i + 1..]);
  }

  /** Taking one element out of a list takes its contribution out of the fold. */
  lemma FoldRemove<T, A(!new)>(b: seq<T>, i: nat, f: T -> A, plus: (A, A) -> A, zero: A)
    requires CommutativeMonoid(plus, zero) && i < |b|
    ensures Fold(b, f, plus, zero) == plus(Fold(b[..i] + b[i + 1..], f, plus, zero), f(b[i]))
  {
    hide CommutativeMonoid, Fold;
    var front, back := b[..i], b[i + 1..];
    assert b == front + ([b[i]] + back);
    FoldConcat(front, back, f, plus, zero);
    FoldConcat(front, [b[i]] + back, f, plus, zero);
    FoldConcat([b[i]], back, f, plus, zero);
    FoldOne(b[i], f, plus, zero);
    PullOut(Fold(front, f, plus, zero), f(b[i]), Fold(back, f, plus, zero), plus, zero);
  }

  lemma FoldOne<T, A(!new)>(x: T, f: T -> A, plus: (A, A) -> A, zero: A)
    requires CommutativeMonoid(plus, zero)
    ensures Fold([x], f, plus, zero) == f(x)
  {
    assert [x][..0] == [];
  }

  lemma PullOut<A(!new)>(x: A, y: A, z: A, plus: (A, A) -> A, zero: A)
    requires CommutativeMonoid(plus, zero)
    ensures plus(x, plus(y, z)) == plus(plus(x, z), y)
    ensures plus(zero, y) == y
  {
    assert plus(y, z) == plus(z, y);
  }

  // ---------------------------------------------------------------- the monoids in use

  function AddInt(a: int, b: int): int { a + b }

  function AddReal(a: real, b: real): real { a + b }

  /** The lesser of two numbers, where None is the minimum of nothing. */
  function Least(a: Option<int>, b: Option<int>): Option<int> {
    if a == None then b else if b == None then a else Some(Min(a.value, b.value))
  }

  lemma Monoids()
    ensures CommutativeMonoid(AddInt, 0)
    ensures CommutativeMonoid(AddReal, 0.0)
    ensures CommutativeMonoid(Least, None)
  {
  }

  function Total<T>(s: seq<T>, f: T -> int): int { Fold(s, f, AddInt, 0) }

  function TotalReal<T>(s: seq<T>, f: T -> real): real { Fold(s, f, AddReal, 0.0) }

  function Lowest<T>(s: seq<T>, f: T -> Option<int>): Option<int> { Fold(s, f, Least, None) }

  lemma TotalConcat<T>(a: seq<T>, b: seq<T>, f: T -> int)
    ensures Total(a + b, f) == Total(a, f) + Total(b, f)
  {
    Monoids();
    FoldConcat(a, b, f, AddInt, 0);
  }

  /** A total over the elements that satisfy p is a total over all, counting the others as 0. */
  lemma {:induction false} FilterTotal<T(!new)>(s: seq<T>, p: T -> bool, f: T -> int, part: T -> int)
    requires forall x :: part(x) == if p(x) then f(x) else 0
    ensures Total(Filter(s, p), f) == Total(s, part)
  {
    if s != [] {
      FilterTotal(s[..|s| - 1], p, f, part);
      FoldSnoc(Filter(s[..|s| - 1], p), s[|s| - 1], f, AddInt, 0);
      assert Filter(s[..|s| - 1], p) + [] == Filter(s[..|s| - 1], p);
    }
  }

  lemma {:induction false} FilterCount<T(!new)>(s: seq<T>, p: T -> bool, part: T -> int)
    requires forall x :: part(x) == if p(x) then 1 else 0
    ensures |Filter(s, p)| == Total(s, part)
  {
    if s != [] {
      FilterCount(s[..|s| - 1], p, part);
    }
  }

  lemma {:induction false} FilterOfMap<T(!new), U(!new)>(s: seq<T>, g: T -> U, p: U -> bool, q: T -> bool)
    requires forall x :: q(x) == p(g(x))
    ensures Filter(Map(s, g), p) == Map(Filter(s, q), g)
  {
    if s != [] {
      var front, x := s[..|s| - 1], s[|s| - 1];
      FilterOfMap(front, g, p, q);
      assert Map(s, g)[..|s| - 1] == Map(front, g);
      assert Map(Filter(front, q) + [x], g) == Map(Filter(front, q), g) + [g(x)];
    }
  }

  lemma {:induction false} FoldOfMap<T, U, A>(s: seq<T>, g: T -> U, f: U -> A, h: T -> A, plus: (A, A) -> A, zero: A)
    requires forall i | 0 <= i < |s| :: h(s[i]) == f(g(s[i]))
    ensures Fold(Map(s, g), f, plus, zero) == Fold(s, h, plus, zero)
  {
    if s != [] {
      assert Map(s, g)[..|s| - 1] == Map(s[..|s| - 1], g);
      FoldOfMap(s[..|s| - 1], g, f, h, plus, zero);
    }
  }

  // ---------------------------------------------------------------- filters and permutations

  lemma {:induction false} FilterMultiset<T(!new)>(s: seq<T>, p: T -> bool, x: T)
    ensures multiset(Filter(s, p))[x] == if p(x) then multiset(s)[x] else 0
  {
    if s != [] {
      FilterMultiset(s[..|s| - 1], p, x);
      assert s == s[..|s| - 1] + [s[|s| - 1]];
    }
  }

  /** Filtering two permutations of a list gives permutations. */
  lemma FilterPermutation<T(!new)>(a: seq<T>, b: seq<T>, p: T -> bool)
    requires multiset(a) == multiset(b)
    ensures multiset(Filter(a, p)) == multiset(Filter(b, p))
  {
    forall x
      ensures multiset(Filter(a, p))[x] == multiset(Filter(b, p))[x]
    {
      FilterMultiset(a, p, x);
      FilterMultiset(b, p, x);
    }
  }

  /** Mapping two permutations of a list gives permutations. */
  lemma {:induction false} MapPermutation<S, T>(a: seq<S>, b: seq<S>, f: S -> T)
    requires multiset(a) == multiset(b)
    ensures multiset(Map(a, f)) == multiset(Map(b, f))
    decreases |a|
  {
    if a == [] {
      assert |multiset(b)| == 0;
    } else {
      var n := |a| - 1;
      assert a == a[..n] + [a[n]];
      assert a[n] in multiset(b);
      var i :| 0 <= i < |b| && b[i] == a[n];
      RemoveOne(b, i);
      MapPermutation(a[..n], b[..i] + b[i + 1..], f);
      MapWithout(a, n, f);
      MapWithout(b, i, f);
      assert a[..n] + a[n + 1..] == a[..n];
    }
  }

  lemma MapWithout<S, T>(s: seq<S>, i: nat, f: S -> T)
    requires i < |s|
    ensures multiset(Map(s, f)) == multiset(Map(s[..i] + s[i + 1..], f)) + multiset{f(s[i])}
  {
    assert Map(s[..i] + s[i + 1..], f) == Map(s[..i], f) + Map(s[i + 1..], f);
    assert Map(s, f) == Map(s[..i], f) + [f(s[i])] + Map(s[i + 1..], f);
  }
}
