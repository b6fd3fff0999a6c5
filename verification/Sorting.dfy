/**
 Python's list.sort / sorted, as a stable insertion sort on values, for a comparison given as a total
 preorder. The facts below are the only ones the models use.
 */
module Sorting {
  import opened Prelude

  ghost predicate TotalPreorder<T(!new)>(le: (T, T) -> bool) {
    && (forall x, y :: le(x, y) || le(y, x))
    && forall x, y, z :: le(x, y) && le(y, z) ==> le(x, z)
  }

  predicate Sorted<T>(s: seq<T>, le: (T, T) -> bool) {
    forall i, j | 0 <= i < j < |s| :: le(s[i], s[j])
  }

  /** x after every element that is not greater: equal keys keep their order of arrival. */
  function Insert<T>(s: seq<T>, x: T, le: (T, T) -> bool): (r: seq<T>)
    ensures |r| == |s| + 1
  {
    if s == [] || le(s[|s| - 1], x) then s + [x]
    else Insert(s[..|s| - 1], x, le) + [s[|s| - 1]]
  }

  function Sort<T>(s: seq<T>, le: (T, T) -> bool): (r: seq<T>)
    ensures |r| == |s|
  {
    if s == [] then [] else Insert(Sort(s[..|s| - 1], le), s[|s| - 1], le)
  }

  lemma {:induction false} InsertSorts<T(!new)>(s: seq<T>, x: T, le: (T, T) -> bool)
    requires TotalPreorder(le) && Sorted(s, le)
    ensures Sorted(Insert(s, x, le), le)
    ensures multiset(Insert(s, x, le)) == multiset(s) + multiset{x}
  {
    hide Sorted, TotalPreorder;
    if s == [] || le(s[|s| - 1], x) {
      LastBelow(s, x, le);
      SnocSorted(s, x, le);
    } else {
      var front, last := s[..|s| - 1], s[|s| - 1];
      assert s == front + [last];
      FrontSorted(front, x, last, le);
      InsertSorts(front, x, le);
      AllBelow(Insert(front, x, le), front, x, last, le);
      SnocSorted(Insert(front, x, le), last, le);
    }
  }

  lemma LastBelow<T(!new)>(s: seq<T>, x: T, le: (T, T) -> bool)
    requires TotalPreorder(le) && Sorted(s, le) && (s == [] || le(s[|s| - 1], x))
    ensures forall i | 0 <= i < |s| :: le(s[i], x)
  {
  }

  lemma SnocSorted<T(!new)>(s: seq<T>, x: T, le: (T, T) -> bool)
    requires Sorted(s, le) && forall i | 0 <= i < |s| :: le(s[i], x)
    ensures Sorted(s + [x], le)
  {
  }

  lemma FrontSorted<T(!new)>(front: seq<T>, x: T, last: T, le: (T, T) -> bool)
    requires TotalPreorder(le) && Sorted(front + [last], le) && !le(last, x)
    ensures Sorted(front, le) && le(x, last) && forall i | 0 <= i < |front| :: le(front[i], last)
  {
    var s := front + [last];
    assert s[|front|] == last && forall i | 0 <= i < |front| :: s[i] == front[i];
  }

  lemma AllBelow<T(!new)>(r: seq<T>, front: seq<T>, x: T, last: T, le: (T, T) -> bool)
    requires multiset(r) == multiset(front) + multiset{x}
    requires le(x, last) && forall i | 0 <= i < |front| :: le(front[i], last)
    ensures forall i | 0 <= i < |r| :: le(r[i], last)
  {
    forall i | 0 <= i < |r|
      ensures le(r[i], last)
    {
      assert r[i] in multiset(r);
      assert r[i] == x || r[i] in multiset(front);
    }
  }

  lemma {:induction false} SortSorts<T(!new)>(s: seq<T>, le: (T, T) -> bool)
    requires TotalPreorder(le)
    ensures Sorted(Sort(s, le), le)
    ensures multiset(Sort(s, le)) == multiset(s)
  {
    if s != [] {
      assert s == s[..|s| - 1] + [s[|s| - 1]];
      SortSorts(s[..|s| - 1], le);
      InsertSorts(Sort(s[..|s| - 1], le), s[|s| - 1], le);
    }
  }

  lemma {:induction false} InsertOfFilter<T(!new)>(s: seq<T>, x: T, p: T -> bool, le: (T, T) -> bool)
    requires TotalPreorder(le) && Sorted(s, le)
    ensures Filter(Insert(s, x, le), p) == if p(x) then Insert(Filter(s, p), x, le) else Filter(s, p)
  {
    hide Filter, TotalPreorder;
    if s == [] || le(s[|s| - 1], x) {
      FilterSnoc(s, x, p);
      FilteredBelow(s, x, p, le);
    } else {
      hide Insert;
      var front, last := s[..|s| - 1], s[|s| - 1];
      assert s == front + [last];
      InsertOfFilter(front, x, p, le);
      InsertBefore(front, last, x, le);
      InsertBefore(Filter(front, p), last, x, le);
      FilterSnoc(Insert(front, x, le), last, p);
      FilterSnoc(front, last, p);
    }
  }

  lemma InsertBefore<T>(front: seq<T>, last: T, x: T, le: (T, T) -> bool)
    requires !le(last, x)
    ensures Insert(front + [last], x, le) == Insert(front, x, le) + [last]
  {
    assert (front + [last])[..|front|] == front;
  }

  lemma FilteredBelow<T(!new)>(s: seq<T>, x: T, p: T -> bool, le: (T, T) -> bool)
    requires TotalPreorder(le) && Sorted(s, le) && (s == [] || le(s[|s| - 1], x))
    ensures Filter(s, p) == [] || le(Filter(s, p)[|Filter(s, p)| - 1], x)
  {
    hide Filter;
    var kept := Filter(s, p);
    if kept != [] {
      assert kept[|kept| - 1] in s;
      var i :| 0 <= i < |s| && s[i] == kept[|kept| - 1];
      assert i == |s| - 1 || le(s[i], s[|s| - 1]);
    }
  }

  /** A stable sort and a filter commute. */
  lemma {:induction false} SortOfFilter<T(!new)>(s: seq<T>, p: T -> bool, le: (T, T) -> bool)
    requires TotalPreorder(le)
    ensures Filter(Sort(s, le), p) == Sort(Filter(s, p), le)
  {
    if s != [] {
      var n := |s| - 1;
      SortOfFilter(s[..n], p, le);
      SortSorts(s[..n], le);
      InsertOfFilter(Sort(s[..n], le), s[n], p, le);
      if p(s[n]) {
        var kept := Filter(s[..n], p);
        assert (kept + [s[n]])[..|kept|] == kept;
      }
    }
  }

  /** A list already in order is left alone. */
  lemma {:induction false} SortOfSorted<T>(s: seq<T>, le: (T, T) -> bool)
    requires Sorted(s, le)
    ensures Sort(s, le) == s
  {
    hide Insert;
    if s != [] {
      var front, last := s[..|s| - 1], s[|s| - 1];
      SortOfSorted(front, le);
      InsertLast(front, last, le);
      assert s == front + [last];
    }
  }

  lemma InsertLast<T>(s: seq<T>, x: T, le: (T, T) -> bool)
    requires s == [] || le(s[|s| - 1], x)
    ensures Insert(s, x, le) == s + [x]
  {
  }

  /** Two sorted lists of the same elements are the same list, if ties are only between equals. */
  lemma {:induction false} SortedPermutationsAgree<T(!new)>(a: seq<T>, b: seq<T>, le: (T, T) -> bool)
    requires Sorted(a, le) && Sorted(b, le) && multiset(a) == multiset(b)
    requires forall x, y | x in a && y in a && le(x, y) && le(y, x) :: x == y
    ensures a == b
  {
    if a == [] {
      assert |multiset(b)| == 0;
    } else {
      LastsAgree(a, b, le);
      var n := |a| - 1;
      DropLast(a);
      DropLast(b);
      assert forall z | z in a[..n] :: z in a;
      SortedPermutationsAgree(a[..n], b[..n], le);
    }
  }

  lemma DropLast<T>(s: seq<T>)
    requires s != []
    ensures s == s[..|s| - 1] + [s[|s| - 1]]
    ensures multiset(s[..|s| - 1]) == multiset(s) - multiset{s[|s| - 1]}
  {
    assert s == s[..|s| - 1] + [s[|s| - 1]];
  }

  lemma LastsAgree<T(!new)>(a: seq<T>, b: seq<T>, le: (T, T) -> bool)
    requires a != [] && Sorted(a, le) && Sorted(b, le) && multiset(a) == multiset(b)
    requires forall x, y | x in a && y in a && le(x, y) && le(y, x) :: x == y
    ensures |a| == |b| && a[|a| - 1] == b[|b| - 1]
  {
    assert |multiset(a)| == |multiset(b)|;
    var n := |a| - 1;
    var x, y := a[n], b[n];
    assert x in multiset(b) && y in multiset(a);
    var i :| 0 <= i < |b| && b[i] == x;
    var j :| 0 <= j < |a| && a[j] == y;
  }
}
