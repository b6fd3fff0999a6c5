/** Grouping a list by id into an insertion-ordered dictionary, as setdefault(...).append(...) does. */
module Grouping {
  import opened Prelude

  /** The first occurrence of every id, in order. */
  function Distinct(ids: seq<string>): (r: seq<string>)
    ensures forall x :: x in r <==> x in ids
    ensures forall i, j | 0 <= i < j < |r| :: r[i] != r[j]
  {
    if ids == [] then []
    else
      var front, last := Distinct(ids[..|ids| - 1]), ids[|ids| - 1];
      if last in front then front else front + [last]
  }

  function HasId<T>(id: T -> string, a: string): T -> bool {
    x => id(x) == a
  }

  /** The dictionary after seeding the initial ids and filing the items: its key order and its lists. */
  ghost predicate Grouped<T(!new)>(initial: seq<string>, items: seq<T>, id: T -> string,
                                   order: seq<string>, groups: map<string, seq<T>>)
  {
    && order == Distinct(initial + Map(items, id))
    && groups.Keys == (set a | a in order)
    && forall a | a in groups :: groups[a] == Filter(items, HasId(id, a))
  }

  /** { id: [] for id in initial } */
  method Seed<T(!new)>(initial: seq<string>, id: T -> string)
    returns (order: seq<string>, groups: map<string, seq<T>>)
    ensures Grouped(initial, [], id, order, groups)
  {
    order, groups := [], map[];
    for k := 0 to |initial|
      invariant order == Distinct(initial[..k])
      invariant groups.Keys == set a | a in order
      invariant forall a | a in groups :: groups[a] == []
    {
      assert initial[..k + 1][..k] == initial[..k];
      if initial[k] !in groups {
        order := order + [initial[k]];
      }
      groups := groups[initial[k] := []];
    }
    assert initial[..|initial|] == initial == initial + Map([], id);
  }

  method GroupBy<T(!new)>(initial: seq<string>, items: seq<T>, id: T -> string)
    returns (order: seq<string>, groups: map<string, seq<T>>)
    ensures Grouped(initial, items, id, order, groups)
  {
    hide Grouped, Distinct, Filter;
    order, groups := Seed(initial, id);
    assert items[..0] == [];
    for k := 0 to |items|
      invariant Grouped(initial, items[..k], id, order, groups)
    {
      ghost var order0, groups0 := order, groups;
      var key := id(items[k]);
      if key !in groups {
        order := order + [key];
        groups := groups[key := []];
      }
      groups := groups[key := groups[key] + [items[k]]];
      assert groups == groups0[key := (if key in groups0 then groups0[key] else []) + [items[k]]];
      assert items[..k + 1] == items[..k] + [items[k]];
      GroupOneMore(initial, items[..k], items[k], id, order0, groups0);
    }
    assert items[..|items|] == items;
  }

  lemma GroupOneMore<T(!new)>(initial: seq<string>, items: seq<T>, x: T, id: T -> string,
                              order: seq<string>, groups: map<string, seq<T>>)
    requires Grouped(initial, items, id, order, groups)
    ensures var a := id(x);
            Grouped(initial, items + [x], id, if a in groups then order else order + [a],
                    groups[a := (if a in groups then groups[a] else []) + [x]])
  {
    hide Distinct, Filter;
    var a := id(x);
    DistinctSnoc(initial, items, x, id);
    if a !in groups {
      NoneWithId(initial, items, id, a);
    }
    forall b
      ensures Filter(items + [x], HasId(id, b))
           == if b == a then Filter(items, HasId(id, b)) + [x] else Filter(items, HasId(id, b))
    {
      FilterSnoc(items, x, HasId(id, b));
    }
  }

  lemma DistinctSnoc<T(!new)>(initial: seq<string>, items: seq<T>, x: T, id: T -> string)
    ensures var before := Distinct(initial + Map(items, id));
            Distinct(initial + Map(items + [x], id)) == if id(x) in before then before else before + [id(x)]
  {
    var ids := initial + Map(items, id);
    assert initial + Map(items + [x], id) == ids + [id(x)];
    assert (ids + [id(x)])[..|ids|] == ids;
  }

  lemma {:induction false} NoneWithId<T(!new)>(initial: seq<string>, items: seq<T>, id: T -> string, a: string)
    requires a !in Distinct(initial + Map(items, id))
    ensures Filter(items, HasId(id, a)) == []
  {
    if items != [] {
      var n := |items| - 1;
      assert Map(items, id)[n] in initial + Map(items, id);
      assert Map(items, id) == Map(items[..n], id) + [id(items[n])];
      assert forall x | x in initial + Map(items[..n], id) :: x in initial + Map(items, id);
      NoneWithId(initial, items[..n], id, a);
    }
  }
}
