/**
 From deltas to the quote served: the book of scripts/maker/sx_bet_poller.py lists its orders as its
 dictionary does, a new hash last and a known one in its place, and the quote takes the first of tied offers.
 So a batch that may be reordered leaves the prices alone in any order, and the sizes exactly when the
 offers at the touch that some order of the batch brings first show one size.
 */
module ServedQuotes {
  import opened Prelude
  import Folds
  import opened SxBook
  import opened SxQuotes

  // ---------------------------------------------------------------- the dictionary's order

  /** active_orders: what the dictionary holds, in its own order. */
  type Listing = seq<Order>

  predicate Filed(list: Listing) {
    (forall o | o in list :: o.orderHash.Some?)
    && forall i, j | 0 <= i < j < |list| :: list[i].orderHash != list[j].orderHash
  }

  function IndexOf(list: Listing, key: string): (i: Option<nat>)
    ensures i.Some? ==> i.value < |list| && OfHash(list[i.value], key)
    ensures i.None? ==> forall j | 0 <= j < |list| :: !OfHash(list[j], key)
  {
    if list == [] then None
    else if OfHash(list[|list| - 1], key) then Some(|list| - 1)
    else IndexOf(list[..|list| - 1], key)
  }

  function Put(list: Listing, o: Order): Listing {
    if o.orderHash == None then list
    else
      match IndexOf(list, o.orderHash.value)
      case None => if o.active then list + [o] else list
      case Some(i) =>
        if o.updateTime < list[i].updateTime then list
        else if o.active then list[i := o]
        else list[..i] + list[i + 1..]
  }

  function Listed(list: Listing, deltas: seq<Order>): Listing {
    if deltas == [] then list else Put(Listed(list, deltas[..|deltas| - 1]), deltas[|deltas| - 1])
  }

  /** What is listed under one hash. */
  function Under(list: Listing, key: string): Option<Order> {
    var i := IndexOf(list, key);
    if i.Some? then Some(list[i.value]) else None
  }

  /** The list holds exactly the orders of the book, each hash once. */
  ghost predicate IsListing(list: Listing, orders: Orders) {
    && Filed(list)
    && forall key :: Under(list, key) == if key in orders then Some(orders[key]) else None
  }

  lemma IndexIs(list: Listing, i: nat)
    requires Filed(list) && i < |list|
    ensures list[i].orderHash.Some? && IndexOf(list, list[i].orderHash.value) == Some(i)
  {
    assert list[i] in list;
  }

  lemma Appended(list: Listing, o: Order, key: string)
    requires Filed(list) && o.orderHash.Some? && IndexOf(list, o.orderHash.value) == None
    ensures Filed(list + [o])
    ensures IndexOf(list + [o], key) == if OfHash(o, key) then Some(|list|) else IndexOf(list, key)
  {
    assert (list + [o])[..|list|] == list;
  }

  lemma Replaced(list: Listing, i: nat, o: Order, key: string)
    requires Filed(list) && i < |list| && o.orderHash == list[i].orderHash
    ensures Filed(list[i := o]) && IndexOf(list[i := o], key) == IndexOf(list, key)
  {
    hide IndexOf;
    assert list[i] in list;
    assert forall j | 0 <= j < |list| :: list[i := o][j].orderHash == list[j].orderHash;
    if IndexOf(list, key).Some? {
      IndexIs(list[i := o], IndexOf(list, key).value);
    }
  }

  /** What was behind a removed order moves up by one. */
  function Shift(i: nat, j: Option<nat>): Option<nat> {
    match j
    case None => None
    case Some(n) => if n < i then Some(n) else if n == i then None else Some(n - 1)
  }

  lemma Removed(list: Listing, i: nat, key: string)
    requires Filed(list) && i < |list|
    ensures Filed(list[..i] + list[i + 1..])
    ensures IndexOf(list[..i] + list[i + 1..], key) == Shift(i, IndexOf(list, key))
  {
    hide IndexOf;
    var rest := list[..i] + list[i + 1..];
    assert forall j | 0 <= j < |rest| :: rest[j] == if j < i then list[j] else list[j + 1];
    var was := IndexOf(list, key);
    if was.Some? && was.value != i {
      IndexIs(rest, Shift(i, was).value);
    }
  }

  lemma PutFiles(list: Listing, o: Order)
    requires Filed(list)
    ensures Filed(Put(list, o))
  {
    if o.orderHash.Some? {
      var key := o.orderHash.value;
      match IndexOf(list, key)
      case None => Appended(list, o, key);
      case Some(i) =>
        Replaced(list, i, o, key);
        Removed(list, i, key);
    }
  }

  lemma PutUnder(list: Listing, o: Order, key: string)
    requires Filed(list)
    ensures var was := Under(list, key);
            Under(Put(list, o), key)
            == if !OfHash(o, key) || (was.Some? && o.updateTime < was.value.updateTime) then was
               else if o.active then Some(o) else None
  {
    hide IndexOf, Filed;
    if o.orderHash.Some? {
      match IndexOf(list, o.orderHash.value)
      case None =>
        if o.active {
          Appended(list, o, key);
        }
      case Some(i) =>
        if o.active {
          Replaced(list, i, o, key);
        } else {
          RemovedUnder(list, i, key);
        }
    }
  }

  lemma RemovedUnder(list: Listing, i: nat, key: string)
    requires Filed(list) && i < |list|
    ensures Under(list[..i] + list[i + 1..], key) == if OfHash(list[i], key) then None else Under(list, key)
  {
    hide IndexOf, Filed;
    Removed(list, i, key);
    IndexIs(list, i);
    var (rest, j) := (list[..i] + list[i + 1..], IndexOf(list, key));
    if j.Some? && j.value != i {
      assert rest[if j.value < i then j.value else j.value - 1] == list[j.value];
    }
  }

  lemma PutLists(list: Listing, orders: Orders, o: Order)
    requires IsListing(list, orders)
    ensures IsListing(Put(list, o), ApplyOne(orders, o))
  {
    hide Put, Filed, Under;
    PutFiles(list, o);
    forall key
      ensures Under(Put(list, o), key) == if key in ApplyOne(orders, o) then Some(ApplyOne(orders, o)[key]) else None
    {
      PutUnder(list, o, key);
      assert Under(list, key) == if key in orders then Some(orders[key]) else None;
    }
  }

  /** The listed dictionary holds what the book of the delta loop holds. */
  lemma {:induction false} ListedIsTheBook(list: Listing, orders: Orders, deltas: seq<Order>)
    requires IsListing(list, orders)
    ensures IsListing(Listed(list, deltas), Apply(orders, deltas))
  {
    hide IsListing, Put, ApplyOne;
    if deltas != [] {
      ListedIsTheBook(list, orders, deltas[..|deltas| - 1]);
      PutLists(Listed(list, deltas[..|deltas| - 1]), Apply(orders, deltas[..|deltas| - 1]), deltas[|deltas| - 1]);
    }
  }

  lemma {:induction false} ListedConcat(list: Listing, a: seq<Order>, b: seq<Order>)
    ensures Listed(list, a + b) == Listed(Listed(list, a), b)
  {
    hide Put;
    if b == [] {
      assert a + b == a;
    } else {
      assert (a + b)[..|a + b| - 1] == a + b[..|b| - 1];
      ListedConcat(list, a, b[..|b| - 1]);
    }
  }

  lemma {:induction false} ListedOnce(list: Listing, o: Order)
    requires Filed(list)
    ensures multiset(list)[o] == if o in list then 1 else 0
  {
    if list != [] {
      var n := |list| - 1;
      assert list == list[..n] + [list[n]];
      ListedOnce(list[..n], o);
    }
  }

  lemma ListedUnder(list: Listing, o: Order)
    requires Filed(list)
    ensures o in list <==> o.orderHash.Some? && Under(list, o.orderHash.value) == Some(o)
  {
    hide IndexOf;
    if o in list {
      var i :| 0 <= i < |list| && list[i] == o;
      IndexIs(list, i);
    }
  }

  lemma ListingsPermute(a: Listing, b: Listing, orders: Orders)
    requires IsListing(a, orders) && IsListing(b, orders)
    ensures multiset(a) == multiset(b)
  {
    hide Filed, Under;
    forall o
      ensures multiset(a)[o] == multiset(b)[o]
    {
      ListedUnder(a, o);
      ListedUnder(b, o);
      ListedOnce(a, o);
      ListedOnce(b, o);
    }
  }

  // ---------------------------------------------------------------- who comes first

  /** The order of hash a is listed, and that of hash b, if any, behind it. */
  predicate Leads(list: Listing, a: string, b: string) {
    var (i, j) := (IndexOf(list, a), IndexOf(list, b));
    i.Some? && (j.Some? ==> i.value < j.value)
  }

  /** The listed order of this hash is newer than every removal of it among the deltas. */
  predicate Safe(list: Listing, deltas: seq<Order>, key: string) {
    var held := Under(list, key);
    held.Some? && forall r | r in deltas && OfHash(r, key) && !r.active :: r.updateTime < held.value.updateTime
  }

  /** An order that does not remove the leader changes no place ahead of it. */
  lemma PutKeepsLead(list: Listing, o: Order, a: string, b: string)
    requires Filed(list) && a != b && Leads(list, a, b) && Safe(list, [o], a)
    ensures Leads(Put(list, o), a, b)
  {
    hide IndexOf, Filed;
    assert o in [o];
    if o.orderHash.Some? {
      match IndexOf(list, o.orderHash.value)
      case None =>
        Appended(list, o, a);
        Appended(list, o, b);
      case Some(i) =>
        Replaced(list, i, o, a);
        Replaced(list, i, o, b);
        Removed(list, i, a);
        Removed(list, i, b);
    }
  }

  /** Whatever does not remove the leader leaves it in the lead, and no older than it was. */
  lemma {:induction false} ListedKeepsLead(list: Listing, deltas: seq<Order>, a: string, b: string)
    requires Filed(list) && a != b && Leads(list, a, b) && Safe(list, deltas, a)
    ensures Filed(Listed(list, deltas)) && Leads(Listed(list, deltas), a, b)
    ensures Under(Listed(list, deltas), a).Some?
    ensures Under(list, a).value.updateTime <= Under(Listed(list, deltas), a).value.updateTime
  {
    hide IndexOf, Filed, Put, Under, Leads;
    if deltas != [] {
      var before, o := deltas[..|deltas| - 1], deltas[|deltas| - 1];
      assert deltas == before + [o];
      ListedKeepsLead(list, before, a, b);
      PutKeepsLead(Listed(list, before), o, a, b);
      PutFiles(Listed(list, before), o);
      PutUnder(Listed(list, before), o, a);
    }
  }

  // ---------------------------------------------------------------- the first offer at the touch

  /** A side of the quote: the orders whose offer satisfies p, by what a taker pays. */
  predicate OnTop(orders: Orders, offer: Order -> Offer, p: Offer -> bool, y: Order) {
    && y.orderHash.Some? && y.orderHash.value in orders && orders[y.orderHash.value] == y && p(offer(y))
    && forall key | key in orders && p(offer(orders[key])) :: TakerProb(offer(y)) <= TakerProb(offer(orders[key]))
  }

  /** The first listed order on top of its side. */
  predicate FirstOf(final: Listing, offer: Order -> Offer, p: Offer -> bool, i: nat) {
    && i < |final| && p(offer(final[i]))
    && (forall j | 0 <= j < i && p(offer(final[j])) :: TakerProb(offer(final[i])) < TakerProb(offer(final[j])))
    && forall j | i <= j < |final| && p(offer(final[j])) :: TakerProb(offer(final[i])) <= TakerProb(offer(final[j]))
  }

  lemma {:induction false} BestAmong(a: seq<Offer>, o: Offer, b: seq<Offer>)
    requires forall x | x in a :: TakerProb(o) < TakerProb(x)
    requires forall x | x in b :: TakerProb(o) <= TakerProb(x)
    ensures Best(a + [o] + b) == o
  {
    hide TakerProb;
    var all := a + [o] + b;
    if b != [] {
      var n := |b| - 1;
      assert all[..|all| - 1] == a + [o] + b[..n];
      BestAmong(a, o, b[..n]);
    } else if a != [] {
      assert all[..|all| - 1] == a;
      BestIsLowest(a);
    }
  }

  /** Of the offers of a side, the first one listed that no other undercuts is the one shown. */
  lemma FirstIsShown(list: Listing, offer: Order -> Offer, p: Offer -> bool, i: nat)
    requires FirstOf(list, offer, p, i)
    ensures Filter(Map(list, offer), p) != [] && Best(Filter(Map(list, offer), p)) == offer(list[i])
  {
    hide TakerProb, Best, Filter;
    var offers := Map(list, offer);
    var (a, o, b) := (offers[..i], offers[i], offers[i + 1..]);
    assert offers == a + [o] + b;
    FilterConcat(a + [o], b, p);
    FilterSnoc(a, o, p);
    BestAmong(Filter(a, p), o, Filter(b, p));
  }

  /** Some listed order on top is ahead of all others on top, unless the side is empty. */
  lemma {:induction false} FirstOnTop(list: Listing, offer: Order -> Offer, p: Offer -> bool) returns (i: nat)
    requires exists j :: 0 <= j < |list| && p(offer(list[j]))
    ensures FirstOf(list, offer, p, i)
  {
    hide TakerProb;
    var n := |list| - 1;
    assert forall j | 0 <= j < n :: list[..n][j] == list[j];
    if j :| 0 <= j < n && p(offer(list[j])) {
      assert p(offer(list[..n][j]));
      i := FirstOnTop(list[..n], offer, p);
      if p(offer(list[n])) && TakerProb(offer(list[n])) < TakerProb(offer(list[i])) {
        i := n;
      }
    } else {
      i := n;
    }
  }

  // ---------------------------------------------------------------- who may be shown

  /** The book keeps this hash listed in its place: it heeds no removal of it. */
  ghost predicate Anchored(base: Orders, all: seq<Order>, key: string) {
    key in base && forall r | r in all && OfHash(r, key) && !r.active :: !Fresh(base, r)
  }

  /** On top of the final book, and behind no other order on top that keeps its place. */
  ghost predicate MayLead(list: Listing, base: Orders, all: seq<Order>, offer: Order -> Offer, p: Offer -> bool,
                          y: Order)
  {
    && OnTop(Apply(base, all), offer, p, y)
    && forall z | OnTop(Apply(base, all), offer, p, z) && z != y && Anchored(base, all, z.orderHash.value) ::
         !Leads(list, z.orderHash.value, y.orderHash.value)
  }

  /** All the orders of a side that some order of the batch shows first have one size. */
  ghost predicate OneSizeInTheLead(list: Listing, base: Orders, all: seq<Order>, offer: Order -> Offer,
                                   p: Offer -> bool)
  {
    forall y, z | MayLead(list, base, all, offer, p, y) && MayLead(list, base, all, offer, p, z) ::
      SizeUsdc(offer(y)) == SizeUsdc(offer(z))
  }

  function Shown(list: Listing, offer: Order -> Offer, p: Offer -> bool): Option<Offer> {
    var side := Filter(Map(list, offer), p);
    if side == [] then None else Some(Best(side))
  }

  /** In terms of a listing, on top means listed and undercut by no listed offer. */
  lemma OnTopOfListing(final: Listing, orders: Orders, offer: Order -> Offer, p: Offer -> bool, y: Order)
    requires IsListing(final, orders)
    ensures OnTop(orders, offer, p, y)
       <==> y in final && p(offer(y))
            && forall z | z in final && p(offer(z)) :: TakerProb(offer(y)) <= TakerProb(offer(z))
  {
    hide TakerProb, Filed, Under;
    ListedUnder(final, y);
    if OnTop(orders, offer, p, y) {
      forall z | z in final && p(offer(z))
        ensures TakerProb(offer(y)) <= TakerProb(offer(z))
      {
        ListedUnder(final, z);
        assert Under(final, z.orderHash.value) == Some(z);
      }
    }
    forall key | key in orders
      ensures Some(orders[key]) == Under(final, key) && orders[key] in final
    {
      UnderListed(final, key);
    }
    if y in final {
      assert Under(final, y.orderHash.value) == Some(y);
    }
  }

  lemma UnderListed(list: Listing, key: string)
    requires Under(list, key).Some?
    ensures Under(list, key).value in list && OfHash(Under(list, key).value, key)
  {
  }

  lemma InAnyOrder(list: Listing, base: Orders, all: seq<Order>, again: seq<Order>)
    requires IsListing(list, base) && Reorderable(base, all) && SameOrders(again, all)
    ensures IsListing(Listed(list, again), Apply(base, all))
  {
    hide IsListing;
    ListedIsTheBook(list, base, again);
  }

  /** An order that keeps its place is ahead, to the end, of whatever it was ahead of. */
  lemma AnchoredKeepsLead(list: Listing, base: Orders, all: seq<Order>, again: seq<Order>, a: string, b: string)
    requires IsListing(list, base) && SameOrders(again, all) && a != b && Anchored(base, all, a) && Leads(list, a, b)
    ensures Leads(Listed(list, again), a, b)
  {
    hide Filed, IndexOf, Listed, Leads;
    assert Under(list, a) == Some(base[a]);
    assert Safe(list, again, a) by {
      hide Under;
      forall r | r in again && OfHash(r, a) && !r.active
        ensures r.updateTime < base[a].updateTime
      {
        assert r in all && !Fresh(base, r);
      }
    }
    ListedKeepsLead(list, again, a, b);
  }

  lemma FirstIsOnTop(final: Listing, orders: Orders, offer: Order -> Offer, p: Offer -> bool, i: nat)
    requires IsListing(final, orders) && FirstOf(final, offer, p, i)
    ensures OnTop(orders, offer, p, final[i])
    ensures forall j | 0 <= j < i :: !OnTop(orders, offer, p, final[j])
  {
    hide TakerProb, OnTop, IsListing;
    forall j | 0 <= j <= i
      ensures OnTop(orders, offer, p, final[j]) <==> j == i
    {
      OnTopOfListing(final, orders, offer, p, final[j]);
      if j < i && p(offer(final[j])) {
        assert final[i] in final;
      }
    }
  }

  lemma FirstMayLead(list: Listing, base: Orders, all: seq<Order>, again: seq<Order>, offer: Order -> Offer,
                     p: Offer -> bool, i: nat)
    requires IsListing(list, base) && Reorderable(base, all) && SameOrders(again, all)
    requires FirstOf(Listed(list, again), offer, p, i)
    ensures MayLead(list, base, all, offer, p, Listed(list, again)[i])
  {
    hide Apply, Listed, IsListing, Reorderable, SameOrders, Anchored, TakerProb, IndexOf;
    var (final, orders) := (Listed(list, again), Apply(base, all));
    var y := final[i];
    InAnyOrder(list, base, all, again);
    FirstIsOnTop(final, orders, offer, p, i);
    forall z | OnTop(orders, offer, p, z) && z != y && Anchored(base, all, z.orderHash.value)
      ensures !Leads(list, z.orderHash.value, y.orderHash.value)
    {
      OnTopHashes(orders, offer, p, y, z);
      if Leads(list, z.orderHash.value, y.orderHash.value) {
        AnchoredKeepsLead(list, base, all, again, z.orderHash.value, y.orderHash.value);
        PlaceOf(final, orders, offer, p, y);
        PlaceOf(final, orders, offer, p, z);
      }
    }
  }

  lemma OnTopHashes(orders: Orders, offer: Order -> Offer, p: Offer -> bool, y: Order, z: Order)
    requires OnTop(orders, offer, p, y) && OnTop(orders, offer, p, z) && y != z
    ensures y.orderHash != z.orderHash
  {
  }

  lemma PlaceOf(final: Listing, orders: Orders, offer: Order -> Offer, p: Offer -> bool, y: Order)
    requires IsListing(final, orders) && OnTop(orders, offer, p, y)
    ensures var i := IndexOf(final, y.orderHash.value); i.Some? && final[i.value] == y
    ensures forall j | 0 <= j < |final| && final[j] == y :: IndexOf(final, y.orderHash.value) == Some(j)
  {
    hide IndexOf, TakerProb;
    assert Under(final, y.orderHash.value) == Some(y);
    forall j | 0 <= j < |final| && final[j] == y
      ensures IndexOf(final, y.orderHash.value) == Some(j)
    {
      IndexIs(final, j);
    }
  }

  /** In whatever order the batch comes, what a side shows may lead it. */
  lemma ShownMayLead(list: Listing, base: Orders, all: seq<Order>, again: seq<Order>, offer: Order -> Offer,
                     p: Offer -> bool)
    requires IsListing(list, base) && Reorderable(base, all) && SameOrders(again, all)
    ensures match Shown(Listed(list, again), offer, p)
            case None => forall y :: !OnTop(Apply(base, all), offer, p, y)
            case Some(o) => exists y | MayLead(list, base, all, offer, p, y) :: o == offer(y)
  {
    hide Apply, Listed, IsListing, Reorderable, SameOrders, MayLead, OnTop, TakerProb, Filter, Best;
    var final, orders := Listed(list, again), Apply(base, all);
    InAnyOrder(list, base, all, again);
    if exists j :: 0 <= j < |final| && p(offer(final[j])) {
      var i := FirstOnTop(final, offer, p);
      FirstIsShown(final, offer, p, i);
      FirstMayLead(list, base, all, again, offer, p, i);
      assert Shown(final, offer, p) == Some(offer(final[i]));
    } else {
      assert Filter(Map(final, offer), p) == [] by {
        NoneOnSide(final, offer, p);
      }
      forall y
        ensures !OnTop(orders, offer, p, y)
      {
        OnTopOfListing(final, orders, offer, p, y);
      }
    }
  }

  lemma {:induction false} NoneOnSide(final: Listing, offer: Order -> Offer, p: Offer -> bool)
    requires forall j | 0 <= j < |final| :: !p(offer(final[j]))
    ensures Filter(Map(final, offer), p) == []
  {
    if final != [] {
      var n := |final| - 1;
      NoneOnSide(final[..n], offer, p);
      assert Map(final, offer)[..n] == Map(final[..n], offer);
    }
  }

  // ---------------------------------------------------------------- every possible leader is shown by some order

  function RemovalOfOther(key: Option<string>): Order -> bool {
    (r: Order) => !r.active && r.orderHash != key
  }

  /** The batch again, with every removal but of y's hash first and then, if it is one of them, y. */
  function Leading(all: seq<Order>, y: Order): seq<Order> {
    Filter(all, RemovalOfOther(y.orderHash)) + (if y in all then [y] else []) + all
  }

  lemma LeadingIsTheBatch(all: seq<Order>, y: Order)
    ensures SameOrders(Leading(all, y), all)
  {
    hide Filter;
  }

  /** What the final book holds is newer than every removal of its hash: one more removal would take it out. */
  lemma WinnerOutlivesRemovals(base: Orders, all: seq<Order>, y: Order, r: Order)
    requires Reorderable(base, all) && r in all && r.orderHash == y.orderHash && !r.active && y.orderHash.Some?
    requires y.orderHash.value in Apply(base, all) && Apply(base, all)[y.orderHash.value] == y
    ensures r.updateTime < y.updateTime
  {
    assert SameOrders(all + [r], all);
    assert (all + [r])[..|all|] == all;
  }

  /** What the final book holds of the batch, it heeded. */
  lemma WinnerIsHeeded(base: Orders, all: seq<Order>, y: Order)
    requires Reorderable(base, all) && y in all && y.orderHash.Some? && y.active
    requires y.orderHash.value in Apply(base, all) && Apply(base, all)[y.orderHash.value] == y
    ensures Fresh(base, y)
  {
    hide Apply, Reorderable, NewestUnique;
    ReorderableExactly(base, all);
    var i :| 0 <= i < |all| && all[i] == y;
    var x := NewestExists(all, i);
    if Fresh(base, x) {
      NewestWins(base, all, all, x);
    } else {
      AllStale(base, all, x);
      StaleIgnored(base, all, y.orderHash.value);
    }
  }

  /** After the removals only orders that keep their place are listed, and y's hash if it was there. */
  lemma Cleared(list: Listing, base: Orders, all: seq<Order>, y: Order, key: string)
    requires IsListing(list, base) && y.orderHash.Some?
    ensures var removals := Filter(all, RemovalOfOther(y.orderHash));
            && IsListing(Listed(list, removals), Apply(base, removals))
            && (OfHash(y, key) || Anchored(base, all, key) ==>
                  Under(Listed(list, removals), key) == if key in base then Some(base[key]) else None)
            && (!OfHash(y, key) && !Anchored(base, all, key) ==> Under(Listed(list, removals), key) == None)
  {
    hide Filter, Apply, IsListing, Fresh, Under, Listed;
    var removals := Filter(all, RemovalOfOther(y.orderHash));
    ListedIsTheBook(list, base, removals);
    assert forall r | r in removals :: r in all && !r.active && r.orderHash != y.orderHash;
    OnlyRemovals(base, removals, key);
    UnderIs(Listed(list, removals), Apply(base, removals), key);
    if !OfHash(y, key) && !Anchored(base, all, key) && key in base {
      var r :| r in all && OfHash(r, key) && !r.active && Fresh(base, r);
      assert r in removals;
      var i :| 0 <= i < |removals| && removals[i] == r;
    }
  }

  lemma UnderIs(list: Listing, orders: Orders, key: string)
    requires IsListing(list, orders)
    ensures Under(list, key) == if key in orders then Some(orders[key]) else None
  {
  }

  /** Once y is in and ahead of another hash, the batch leaves it ahead. */
  lemma WinnerKeepsLead(list: Listing, base: Orders, all: seq<Order>, y: Order, key: string)
    requires Reorderable(base, all) && y.orderHash.Some? && !OfHash(y, key) && Filed(list)
    requires y.orderHash.value in Apply(base, all) && Apply(base, all)[y.orderHash.value] == y
    requires Under(list, y.orderHash.value) == Some(y) && Leads(list, y.orderHash.value, key)
    ensures Leads(Listed(list, all), y.orderHash.value, key)
  {
    hide Filed, Under, Listed, Leads, Apply, Reorderable;
    forall r | r in all && OfHash(r, y.orderHash.value) && !r.active
      ensures r.updateTime < y.updateTime
    {
      WinnerOutlivesRemovals(base, all, y, r);
    }
    ListedKeepsLead(list, all, y.orderHash.value, key);
  }

  /** The list once the removals and y, if it is of the batch, are in. */
  function Prepared(list: Listing, all: seq<Order>, y: Order): Listing {
    Listed(Listed(list, Filter(all, RemovalOfOther(y.orderHash))), if y in all then [y] else [])
  }

  ghost predicate Wins(base: Orders, all: seq<Order>, y: Order) {
    y.orderHash.Some? && y.orderHash.value in Apply(base, all) && Apply(base, all)[y.orderHash.value] == y
  }

  lemma PreparedIsPut(list: Listing, all: seq<Order>, y: Order)
    ensures var cleared := Listed(list, Filter(all, RemovalOfOther(y.orderHash)));
            Prepared(list, all, y) == if y in all then Put(cleared, y) else cleared
  {
    hide Filter, Put;
    var cleared := Listed(list, Filter(all, RemovalOfOther(y.orderHash)));
    assert [y][..0] == [];
    assert Listed(cleared, [y]) == Put(Listed(cleared, [y][..0]), y);
    assert Listed(cleared, []) == cleared;
  }

  lemma WinnerIsIn(list: Listing, base: Orders, all: seq<Order>, y: Order)
    requires IsListing(list, base) && Reorderable(base, all) && Wins(base, all, y)
    ensures Filed(Prepared(list, all, y)) && Under(Prepared(list, all, y), y.orderHash.value) == Some(y)
    ensures y in all ==> y.active
  {
    hide Filter, Apply, Reorderable, Filed, Under, Listed, Put, Prepared;
    var key := y.orderHash.value;
    var cleared := Listed(list, Filter(all, RemovalOfOther(y.orderHash)));
    Cleared(list, base, all, y, key);
    PreparedIsPut(list, all, y);
    if y in all {
      if !y.active {
        WinnerOutlivesRemovals(base, all, y, y);
      }
      WinnerIsHeeded(base, all, y);
      PutUnder(cleared, y, key);
      PutFiles(cleared, y);
    } else {
      HeldIsDelivered(base, all, key);
    }
  }

  /** It is then ahead of whatever does not keep its place, and of what it was ahead of. */
  lemma WinnerIsAhead(list: Listing, base: Orders, all: seq<Order>, y: Order, key: string)
    requires IsListing(list, base) && Reorderable(base, all) && Wins(base, all, y) && !OfHash(y, key)
    requires Anchored(base, all, key) ==> Leads(list, y.orderHash.value, key)
    ensures Leads(Prepared(list, all, y), y.orderHash.value, key)
  {
    hide Filter, Apply, Reorderable, Filed, Listed, Put, Prepared, IndexOf, Wins, Anchored;
    var removals := Filter(all, RemovalOfOther(y.orderHash));
    var cleared := Listed(list, removals);
    WinnerIsIn(list, base, all, y);
    PreparedIsPut(list, all, y);
    Cleared(list, base, all, y, key);
    if Anchored(base, all, key) {
      assert forall r | r in removals :: r.orderHash != y.orderHash;
      ListedKeepsLead(list, removals, y.orderHash.value, key);
      if y in all {
        PutKeepsLead(cleared, y, y.orderHash.value, key);
      }
    } else if y in all {
      PutUnder(cleared, y, key);
    }
  }

  /** Brought in so, y ends ahead of every other order on top. */
  lemma LeaderIsAhead(list: Listing, base: Orders, all: seq<Order>, offer: Order -> Offer, p: Offer -> bool,
                      y: Order, z: Order)
    requires IsListing(list, base) && Reorderable(base, all) && MayLead(list, base, all, offer, p, y)
    requires OnTop(Apply(base, all), offer, p, z) && z != y
    ensures y.orderHash != z.orderHash
    ensures Leads(Listed(list, Leading(all, y)), y.orderHash.value, z.orderHash.value)
  {
    hide Filter, Apply, Reorderable, Filed, Listed, Prepared, IndexOf, Anchored, TakerProb, Under, Leading, Leads;
    OnTopHashes(Apply(base, all), offer, p, y, z);
    var (a, b) := (y.orderHash.value, z.orderHash.value);
    if Anchored(base, all, b) {
      BothListed(list, base, all, a, b);
    }
    WinnerIsIn(list, base, all, y);
    WinnerIsAhead(list, base, all, y, b);
    WinnerKeepsLead(Prepared(list, all, y), base, all, y, b);
    LeadingListed(list, all, y);
  }

  lemma LeadingListed(list: Listing, all: seq<Order>, y: Order)
    ensures Listed(list, Leading(all, y)) == Listed(Prepared(list, all, y), all)
  {
    hide Filter, Listed;
    var first, second := Filter(all, RemovalOfOther(y.orderHash)), if y in all then [y] else [];
    ListedConcat(list, first + second, all);
    ListedConcat(list, first, second);
  }

  /** A hash that is listed is behind another or ahead of it. */
  lemma BothListed(list: Listing, base: Orders, all: seq<Order>, a: string, b: string)
    requires IsListing(list, base) && Anchored(base, all, b) && a != b && !Leads(list, b, a)
    ensures Leads(list, a, b)
  {
    hide IndexOf;
    assert Under(list, b) == Some(base[b]);
  }

  /** Whatever may lead a side is what the side shows in some order of the batch. */
  lemma LeaderIsShown(list: Listing, base: Orders, all: seq<Order>, offer: Order -> Offer, p: Offer -> bool, y: Order)
    requires IsListing(list, base) && Reorderable(base, all) && MayLead(list, base, all, offer, p, y)
    ensures Shown(Listed(list, Leading(all, y)), offer, p) == Some(offer(y))
  {
    hide Apply, Listed, IsListing, Reorderable, SameOrders, TakerProb, Filter, Best, Leading, IndexOf, OnTop;
    var (final, orders) := (Listed(list, Leading(all, y)), Apply(base, all));
    LeadingIsTheBatch(all, y);
    InAnyOrder(list, base, all, Leading(all, y));
    PlaceOf(final, orders, offer, p, y);
    OnTopOfListing(final, orders, offer, p, y);
    var j :| 0 <= j < |final| && final[j] == y;
    var i := FirstOnTop(final, offer, p);
    FirstIsOnTop(final, orders, offer, p, i);
    FirstIsShown(final, offer, p, i);
    if final[i] != y {
      LeaderIsAhead(list, base, all, offer, p, y, final[i]);
      PlaceOf(final, orders, offer, p, final[i]);
    }
  }

  // ---------------------------------------------------------------- the quote served

  /** What a poll reports for the market once the deltas are in. */
  function ServedQuote(list: Listing, deltas: seq<Order>, offer: Order -> Offer): Quote {
    QuoteOf(Map(Listed(list, deltas), offer))
  }

  /** A batch that may be reordered leaves bid, ask, mid and count of the quote served alone, in any order. */
  lemma ReorderedPrices(list: Listing, base: Orders, all: seq<Order>, again: seq<Order>, offer: Order -> Offer)
    requires IsListing(list, base) && Reorderable(base, all) && SameOrders(again, all)
    ensures var (q, r) := (ServedQuote(list, all, offer), ServedQuote(list, again, offer));
            r.bid == q.bid && r.ask == q.ask && r.mid == q.mid && r.nOrders == q.nOrders
  {
    hide Apply, Listed, IsListing, Reorderable, QuoteOf;
    InAnyOrder(list, base, all, again);
    InAnyOrder(list, base, all, all);
    ListingsPermute(Listed(list, all), Listed(list, again), Apply(base, all));
    Folds.MapPermutation(Listed(list, all), Listed(list, again), offer);
    PricesIgnoreOrder(Map(Listed(list, all), offer), Map(Listed(list, again), offer));
  }

  /** It leaves the whole quote alone exactly when what may lead a side shows one size. */
  lemma ServedQuoteExactly(list: Listing, base: Orders, all: seq<Order>, offer: Order -> Offer)
    requires IsListing(list, base) && Reorderable(base, all)
    ensures (forall again | SameOrders(again, all) :: ServedQuote(list, again, offer) == ServedQuote(list, all, offer))
       <==> OneSizeInTheLead(list, base, all, offer, IsAsk) && OneSizeInTheLead(list, base, all, offer, IsBid)
  {
    hide Apply, IsListing, Reorderable, SameOrders, ServedQuote, OneSizeInTheLead;
    if OneSizeInTheLead(list, base, all, offer, IsAsk) && OneSizeInTheLead(list, base, all, offer, IsBid) {
      forall again | SameOrders(again, all)
        ensures ServedQuote(list, again, offer) == ServedQuote(list, all, offer)
      {
        SameQuote(list, base, all, again, offer);
      }
    }
    if forall again | SameOrders(again, all) :: ServedQuote(list, again, offer) == ServedQuote(list, all, offer) {
      OneSizeNeeded(list, base, all, offer);
    }
  }

  function SizeShown(shown: Option<Offer>): real {
    match shown
    case None => 0.0
    case Some(o) => SizeUsdc(o)
  }

  lemma SizesShown(list: Listing, deltas: seq<Order>, offer: Order -> Offer)
    ensures ServedQuote(list, deltas, offer).askSize == SizeShown(Shown(Listed(list, deltas), offer, IsAsk))
    ensures ServedQuote(list, deltas, offer).bidSize == SizeShown(Shown(Listed(list, deltas), offer, IsBid))
  {
    hide Filter, Best, Listed, SizeUsdc;
  }

  lemma SameSideSize(list: Listing, base: Orders, all: seq<Order>, again: seq<Order>, offer: Order -> Offer,
                     p: Offer -> bool)
    requires IsListing(list, base) && Reorderable(base, all) && SameOrders(again, all)
    requires OneSizeInTheLead(list, base, all, offer, p)
    ensures SizeShown(Shown(Listed(list, again), offer, p)) == SizeShown(Shown(Listed(list, all), offer, p))
  {
    hide Apply, Listed, IsListing, Reorderable, Shown, SizeUsdc, TakerProb, Anchored, Leads;
    ShownMayLead(list, base, all, again, offer, p);
    ShownMayLead(list, base, all, all, offer, p);
  }

  lemma SameQuote(list: Listing, base: Orders, all: seq<Order>, again: seq<Order>, offer: Order -> Offer)
    requires IsListing(list, base) && Reorderable(base, all) && SameOrders(again, all)
    requires OneSizeInTheLead(list, base, all, offer, IsAsk) && OneSizeInTheLead(list, base, all, offer, IsBid)
    ensures ServedQuote(list, again, offer) == ServedQuote(list, all, offer)
  {
    hide Apply, Listed, IsListing, Reorderable, Shown, ServedQuote, OneSizeInTheLead;
    ReorderedPrices(list, base, all, again, offer);
    SameSideSize(list, base, all, again, offer, IsAsk);
    SameSideSize(list, base, all, again, offer, IsBid);
    SizesShown(list, all, offer);
    SizesShown(list, again, offer);
  }

  lemma OneSizeNeeded(list: Listing, base: Orders, all: seq<Order>, offer: Order -> Offer)
    requires IsListing(list, base) && Reorderable(base, all)
    requires forall again | SameOrders(again, all) ::
               ServedQuote(list, again, offer) == ServedQuote(list, all, offer)
    ensures OneSizeInTheLead(list, base, all, offer, IsAsk) && OneSizeInTheLead(list, base, all, offer, IsBid)
  {
    hide Apply, Listed, IsListing, Reorderable, Shown, ServedQuote, MayLead, Leading, SizeUsdc, SameOrders;
    forall y | MayLead(list, base, all, offer, IsAsk, y)
      ensures ServedQuote(list, all, offer).askSize == SizeUsdc(offer(y))
    {
      LeadingIsTheBatch(all, y);
      LeaderIsShown(list, base, all, offer, IsAsk, y);
      SizesShown(list, Leading(all, y), offer);
    }
    forall y | MayLead(list, base, all, offer, IsBid, y)
      ensures ServedQuote(list, all, offer).bidSize == SizeUsdc(offer(y))
    {
      LeadingIsTheBatch(all, y);
      LeaderIsShown(list, base, all, offer, IsBid, y);
      SizesShown(list, Leading(all, y), offer);
    }
  }

  lemma TouchIsOnTop(final: Listing, orders: Orders, offer: Order -> Offer, p: Offer -> bool)
    requires IsListing(final, orders)
    ensures forall y | OnTop(orders, offer, p, y) :: AtTouch(offer(y), Filter(Map(final, offer), p))
    ensures forall o | AtTouch(o, Filter(Map(final, offer), p)) ::
              exists y | OnTop(orders, offer, p, y) :: o == offer(y)
  {
    hide Filter, TakerProb, IsListing, OnTop;
    var side := Filter(Map(final, offer), p);
    SideMembers(final, offer, p);
    forall y | y in final
      ensures OnTop(orders, offer, p, y) <==> AtTouch(offer(y), side)
    {
      OnTopOfListing(final, orders, offer, p, y);
    }
    forall y | OnTop(orders, offer, p, y)
      ensures y in final
    {
      OnTopOfListing(final, orders, offer, p, y);
    }
  }

  lemma SideMembers(final: Listing, offer: Order -> Offer, p: Offer -> bool)
    ensures forall o :: o in Filter(Map(final, offer), p) <==> p(o) && exists y | y in final :: o == offer(y)
  {
    hide Filter;
    forall o
      ensures o in Map(final, offer) <==> exists y | y in final :: o == offer(y)
    {
      if y :| y in final && o == offer(y) {
        var j :| 0 <= j < |final| && final[j] == y;
        assert Map(final, offer)[j] == o;
      }
    }
  }

  lemma FreshLeaders(all: seq<Order>, offer: Order -> Offer, p: Offer -> bool)
    ensures OneSizeInTheLead([], map[], all, offer, p)
       <==> OneSizeAtTouch(Filter(Map(Listed([], all), offer), p))
  {
    hide Filter, TakerProb, Apply, Listed, AtTouch, OnTop, SizeUsdc;
    assert IsListing([], map[]);
    ListedIsTheBook([], map[], all);
    TouchIsOnTop(Listed([], all), Apply(map[], all), offer, p);
    assert forall y :: MayLead([], map[], all, offer, p, y) <==> OnTop(Apply(map[], all), offer, p, y);
  }

  /** From an empty book: exactly when the offers tied at each touch show one size. */
  lemma FreshQuoteExactly(all: seq<Order>, offer: Order -> Offer)
    requires Reorderable(map[], all)
    ensures var final := Map(Listed([], all), offer);
            (forall again | SameOrders(again, all) :: ServedQuote([], again, offer) == ServedQuote([], all, offer))
            <==> OneSizeAtTouch(Filter(final, IsAsk)) && OneSizeAtTouch(Filter(final, IsBid))
  {
    hide Filter, Apply, Listed, Reorderable, SameOrders, ServedQuote, OneSizeInTheLead, OneSizeAtTouch;
    assert IsListing([], map[]);
    ServedQuoteExactly([], map[], all, offer);
    FreshLeaders(all, offer, IsAsk);
    FreshLeaders(all, offer, IsBid);
  }
}
