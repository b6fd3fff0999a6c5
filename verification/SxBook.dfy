/**
 The SX order book of scripts/maker/sx_bet_poller.py: a seeded, delta-driven book per market and the
 frame loop that invalidates every book on a disconnect. The main lemmas: which batches of deltas may
 be reordered or repeated, and that nothing received before a gap is ever served after it.
 */
module SxBook {
  import opened Prelude

  /** An order as received; body stands for its odds, size and side. None is a missing orderHash. */
  datatype Order = Order(orderHash: Option<string>, active: bool, updateTime: int, body: string)

  type Orders = map<string, Order>

  // ---------------------------------------------------------------- the book

  function ApplyOne(orders: Orders, o: Order): Orders {
    match o.orderHash
    case None => orders
    case Some(key) =>
      if key in orders && o.updateTime < orders[key].updateTime then orders
      else if o.active then orders[key := o]
      else orders - {key}
  }

  function Apply(orders: Orders, deltas: seq<Order>): Orders {
    if deltas == [] then orders else ApplyOne(Apply(orders, deltas[..|deltas| - 1]), deltas[|deltas| - 1])
  }

  /** A snapshot keeps its active orders, the last one of a hash winning. */
  function Snapshot(orders: seq<Order>): Orders {
    if orders == [] then map[]
    else
      var before, o := Snapshot(orders[..|orders| - 1]), orders[|orders| - 1];
      if o.orderHash == None || !o.active then before else before[o.orderHash.value := o]
  }

  /** Every retained order is active and filed under its own hash. */
  predicate Kept(orders: Orders) {
    forall key | key in orders :: orders[key].active && orders[key].orderHash == Some(key)
  }

  lemma {:induction false} ApplyKeeps(orders: Orders, deltas: seq<Order>)
    requires Kept(orders)
    ensures Kept(Apply(orders, deltas))
  {
    if deltas != [] {
      ApplyKeeps(orders, deltas[..|deltas| - 1]);
    }
  }

  lemma {:induction false} SnapshotKeeps(orders: seq<Order>)
    ensures Kept(Snapshot(orders))
  {
    if orders != [] {
      SnapshotKeeps(orders[..|orders| - 1]);
    }
  }

  /** The book of a snapshot: a hash is in it exactly when an active order carries it, and holds the last such order. */
  ghost predicate SeededFrom(book: Orders, snapshot: seq<Order>) {
    && (forall key :: key in book <==>
          exists i | 0 <= i < |snapshot| :: snapshot[i].orderHash == Some(key) && snapshot[i].active)
    && forall key | key in book :: IsLastActive(snapshot, book[key], key)
  }

  predicate IsLastActive(snapshot: seq<Order>, o: Order, key: string) {
    exists i | 0 <= i < |snapshot| ::
      && snapshot[i] == o && o.orderHash == Some(key) && o.active
      && forall j | i < j < |snapshot| && snapshot[j].orderHash == Some(key) :: !snapshot[j].active
  }

  lemma {:induction false} SnapshotSeeds(snapshot: seq<Order>)
    ensures SeededFrom(Snapshot(snapshot), snapshot)
  {
    if snapshot != [] {
      var n := |snapshot| - 1;
      var before, o := Snapshot(snapshot[..n]), snapshot[n];
      SnapshotSeeds(snapshot[..n]);
      forall key
        ensures key in Snapshot(snapshot) <==>
                  exists i | 0 <= i < |snapshot| :: snapshot[i].orderHash == Some(key) && snapshot[i].active
        ensures key in Snapshot(snapshot) ==> IsLastActive(snapshot, Snapshot(snapshot)[key], key)
      {
        if o.orderHash == Some(key) && o.active {
          assert snapshot[n] == o;
        } else if key in before {
          LastActiveSnoc(snapshot, before[key], key);
        }
      }
    }
  }

  lemma LastActiveSnoc(snapshot: seq<Order>, o: Order, key: string)
    requires snapshot != [] && IsLastActive(snapshot[..|snapshot| - 1], o, key)
    requires !(snapshot[|snapshot| - 1].orderHash == Some(key) && snapshot[|snapshot| - 1].active)
    ensures IsLastActive(snapshot, o, key)
    ensures exists i | 0 <= i < |snapshot| :: snapshot[i].orderHash == Some(key) && snapshot[i].active
  {
    var n := |snapshot| - 1;
    var i :| 0 <= i < n && snapshot[..n][i] == o && o.orderHash == Some(key) && o.active
             && forall j | i < j < n && snapshot[..n][j].orderHash == Some(key) :: !snapshot[..n][j].active;
    assert snapshot[i] == o;
    assert forall j | i < j < n :: snapshot[j] == snapshot[..n][j];
  }

  lemma SeededOnce(a: Orders, b: Orders, snapshot: seq<Order>)
    requires SeededFrom(a, snapshot) && SeededFrom(b, snapshot)
    ensures a == b
  {
    assert forall key :: key in a <==> key in b;
    forall key | key in a
      ensures a[key] == b[key]
    {
      OneLastActive(snapshot, a[key], b[key], key);
    }
  }

  lemma OneLastActive(snapshot: seq<Order>, o: Order, p: Order, key: string)
    requires IsLastActive(snapshot, o, key) && IsLastActive(snapshot, p, key)
    ensures o == p
  {
  }

  /** What one delta does to the book: nothing if stale, else it is held or its hash leaves. */
  lemma OneDelta(orders: Orders, o: Order, key: string)
    ensures var after := Apply(orders, [o]);
            if o.orderHash != Some(key) || (key in orders && o.updateTime < orders[key].updateTime) then
              (key in after <==> key in orders) && (key in orders ==> after[key] == orders[key])
            else (key in after <==> o.active) && (o.active ==> after[key] == o)
  {
    assert [o][..0] == [];
    assert Apply(orders, []) == orders;
  }

  lemma {:induction false} ApplyConcat(orders: Orders, a: seq<Order>, b: seq<Order>)
    ensures Apply(orders, a + b) == Apply(Apply(orders, a), b)
  {
    if b == [] {
      assert a + b == a;
    } else {
      assert (a + b)[..|a + b| - 1] == a + b[..|b| - 1];
      ApplyConcat(orders, a, b[..|b| - 1]);
    }
  }

  /** _SxMarketBook: the dictionary holds (updateTime, order); the time is that of the order. */
  class MarketBook {
    var orders: Orders
    var seeded: bool

    constructor ()
      ensures orders == map[] && !seeded
    {
      orders, seeded := map[], false;
    }

    method Seed(snapshot: seq<Order>)
      modifies this
      ensures orders == Snapshot(snapshot) && seeded && Kept(orders) && SeededFrom(orders, snapshot)
    {
      orders := map[];
      assert snapshot[..0] == [];
      for k := 0 to |snapshot|
        invariant orders == Snapshot(snapshot[..k])
      {
        assert snapshot[..k + 1][..k] == snapshot[..k];
        var order := snapshot[k];
        if order.orderHash == None || !order.active { continue; }
        orders := orders[order.orderHash.value := order];
      }
      assert snapshot[..|snapshot|] == snapshot;
      SnapshotKeeps(snapshot);
      SnapshotSeeds(snapshot);
      seeded := true;
    }

    method ApplyDeltas(deltas: seq<Order>)
      modifies this`orders
      ensures orders == Apply(old(orders), deltas)
      ensures Kept(old(orders)) ==> Kept(orders)
    {
      assert deltas[..0] == [];
      for k := 0 to |deltas|
        invariant orders == Apply(old(orders), deltas[..k])
      {
        assert deltas[..k + 1][..k] == deltas[..k];
        var order := deltas[k];
        if order.orderHash == None { continue; }
        var key := order.orderHash.value;
        if key in orders && order.updateTime < orders[key].updateTime { continue; }
        if order.active {
          orders := orders[key := order];
        } else {
          orders := orders - {key};
        }
      }
      assert deltas[..|deltas|] == deltas;
      if Kept(old(orders)) {
        ApplyKeeps(old(orders), deltas);
      }
    }

    method Invalidate()
      modifies this
      ensures orders == map[] && !seeded
    {
      orders, seeded := map[], false;
    }
  }

  // ---------------------------------------------------------------- what a batch may rely on

  predicate OfHash(o: Order, key: string) {
    o.orderHash == Some(key)
  }

  /** x is the newest active order of its hash. */
  predicate Newest(deltas: seq<Order>, x: Order) {
    x in deltas && x.active
    && forall i | 0 <= i < |deltas| && deltas[i].orderHash == x.orderHash && deltas[i].active ::
         deltas[i].updateTime <= x.updateTime
  }

  /** The book does not already hold something newer under the order's hash. */
  predicate Fresh(base: Orders, o: Order) {
    o.orderHash.Some? && (o.orderHash.value in base ==> base[o.orderHash.value].updateTime <= o.updateTime)
  }

  /** No two different active orders of one hash tie for newest, unless what the book holds is newer anyway. */
  predicate NewestUnique(base: Orders, deltas: seq<Order>) {
    forall i, j | 0 <= i < |deltas| && 0 <= j < |deltas| && deltas[i].orderHash == deltas[j].orderHash
                  && Newest(deltas, deltas[i]) && Newest(deltas, deltas[j]) && Fresh(base, deltas[i]) ::
      deltas[i] == deltas[j]
  }

  /** Wherever a hash has an active order, each removal the book would heed is older than its newest active order. */
  predicate RemovalsAreOlder(base: Orders, deltas: seq<Order>) {
    forall i, j | 0 <= i < |deltas| && 0 <= j < |deltas| && deltas[i].orderHash == deltas[j].orderHash
                  && Newest(deltas, deltas[i]) && !deltas[j].active && Fresh(base, deltas[j]) ::
      deltas[j].updateTime < deltas[i].updateTime
  }

  lemma {:induction false} NewestExists(deltas: seq<Order>, i: nat) returns (x: Order)
    requires i < |deltas| && deltas[i].active
    ensures Newest(deltas, x) && x.orderHash == deltas[i].orderHash
  {
    var n := |deltas| - 1;
    if exists j | 0 <= j < n :: deltas[j].active && deltas[j].orderHash == deltas[i].orderHash {
      var j :| 0 <= j < n && deltas[j].active && deltas[j].orderHash == deltas[i].orderHash;
      var y := NewestExists(deltas[..n], j);
      x := if deltas[n].active && deltas[n].orderHash == y.orderHash && deltas[n].updateTime > y.updateTime
           then deltas[n] else y;
      forall k | 0 <= k < |deltas| && deltas[k].orderHash == x.orderHash && deltas[k].active
        ensures deltas[k].updateTime <= x.updateTime
      {
        assert k < n ==> deltas[..n][k] == deltas[k];
      }
    } else {
      x := deltas[i];
    }
  }

  /** Once a fresh newest active order has arrived it stays; until then the book holds nothing newer. */
  ghost predicate Settled(orders: Orders, seen: seq<Order>, x: Order)
    requires x.orderHash.Some?
  {
    var key := x.orderHash.value;
    if x in seen then key in orders && orders[key] == x
    else key in orders ==> orders[key].updateTime <= x.updateTime
  }

  lemma {:induction false} NewestWins(base: Orders, seen: seq<Order>, all: seq<Order>, x: Order)
    requires NewestUnique(base, all) && RemovalsAreOlder(base, all) && Newest(all, x) && Fresh(base, x)
    requires forall o | o in seen :: o in all
    ensures Settled(Apply(base, seen), seen, x)
  {
    if seen != [] {
      var n := |seen| - 1;
      var o := seen[n];
      assert seen == seen[..n] + [o];
      NewestWins(base, seen[..n], all, x);
      if o.orderHash == x.orderHash {
        Contender(base, all, x, o);
      }
    }
  }

  /** An order of the hash of a fresh newest active order is that order, an older one, or an older removal. */
  lemma Contender(base: Orders, all: seq<Order>, x: Order, o: Order)
    requires NewestUnique(base, all) && RemovalsAreOlder(base, all) && Newest(all, x) && Fresh(base, x)
    requires o in all && o.orderHash == x.orderHash
    ensures o == x || o.updateTime < x.updateTime
  {
    var i :| 0 <= i < |all| && all[i] == x;
    var j :| 0 <= j < |all| && all[j] == o;
    if o.active && o.updateTime == x.updateTime {
      assert Newest(all, all[j]);
    }
  }

  /** Orders older than what the book holds leave it alone. */
  lemma {:induction false} StaleIgnored(base: Orders, seen: seq<Order>, key: string)
    requires key in base
    requires forall i | 0 <= i < |seen| && OfHash(seen[i], key) :: seen[i].updateTime < base[key].updateTime
    ensures key in Apply(base, seen) && Apply(base, seen)[key] == base[key]
  {
    if seen != [] {
      StaleIgnored(base, seen[..|seen| - 1], key);
    }
  }

  /** Removals alone: the first one the book heeds empties the hash for good. */
  lemma {:induction false} OnlyRemovals(base: Orders, seen: seq<Order>, key: string)
    requires forall i | 0 <= i < |seen| && OfHash(seen[i], key) :: !seen[i].active
    ensures key in Apply(base, seen)
       <==> key in base && forall i | 0 <= i < |seen| && OfHash(seen[i], key) :: !Fresh(base, seen[i])
    ensures key in Apply(base, seen) ==> Apply(base, seen)[key] == base[key]
  {
    if seen != [] {
      var n := |seen| - 1;
      OnlyRemovals(base, seen[..n], key);
      assert forall i | 0 <= i < n :: seen[..n][i] == seen[i];
    }
  }

  /** The same orders, in any order and any number of times. */
  predicate SameOrders(a: seq<Order>, b: seq<Order>) {
    (forall o | o in a :: o in b) && forall o | o in b :: o in a
  }

  /** What such a batch leaves under one hash depends on the set of its orders only. */
  lemma SameUnderHash(base: Orders, all: seq<Order>, again: seq<Order>, key: string)
    requires NewestUnique(base, all) && RemovalsAreOlder(base, all) && SameOrders(again, all)
    ensures key in Apply(base, again) <==> key in Apply(base, all)
    ensures key in Apply(base, again) ==> Apply(base, again)[key] == Apply(base, all)[key]
  {
    hide Apply;
    if i :| 0 <= i < |all| && OfHash(all[i], key) && all[i].active {
      var x := NewestExists(all, i);
      if Fresh(base, x) {
        NewestWins(base, again, all, x);
        NewestWins(base, all, all, x);
      } else {
        AllStale(base, all, x);
        forall j | 0 <= j < |again| && OfHash(again[j], key)
          ensures again[j].updateTime < base[key].updateTime
        {
          assert again[j] in all;
        }
        StaleIgnored(base, again, key);
        StaleIgnored(base, all, key);
      }
    } else {
      RemovalsOnBoth(base, all, again, key);
    }
  }

  /** If even the newest active order is stale, every order of its hash is. */
  lemma AllStale(base: Orders, all: seq<Order>, x: Order)
    requires RemovalsAreOlder(base, all) && Newest(all, x) && x.orderHash.Some? && !Fresh(base, x)
    ensures forall o | o in all && o.orderHash == x.orderHash ::
              x.orderHash.value in base && o.updateTime < base[x.orderHash.value].updateTime
  {
    var i :| 0 <= i < |all| && all[i] == x;
    forall o | o in all && o.orderHash == x.orderHash
      ensures o.updateTime < base[x.orderHash.value].updateTime
    {
      var j :| 0 <= j < |all| && all[j] == o;
    }
  }

  lemma RemovalsOnBoth(base: Orders, all: seq<Order>, again: seq<Order>, key: string)
    requires SameOrders(again, all) && forall i | 0 <= i < |all| && OfHash(all[i], key) :: !all[i].active
    ensures key in Apply(base, again) <==> key in Apply(base, all)
    ensures key in Apply(base, again) ==> Apply(base, again)[key] == Apply(base, all)[key]
  {
    hide Apply, Fresh;
    forall i | 0 <= i < |again| && OfHash(again[i], key)
      ensures !again[i].active
    {
      assert again[i] in all;
    }
    OnlyRemovals(base, again, key);
    OnlyRemovals(base, all, key);
    assert forall i | 0 <= i < |again| :: again[i] in all;
    assert forall i | 0 <= i < |all| :: all[i] in again;
  }

  lemma {:induction false} HeldIsDelivered(base: Orders, deltas: seq<Order>, key: string)
    ensures var orders := Apply(base, deltas);
            key in orders ==>
              (key in base && orders[key] == base[key])
              || (orders[key] in deltas && OfHash(orders[key], key) && orders[key].active)
  {
    if deltas != [] {
      HeldIsDelivered(base, deltas[..|deltas| - 1], key);
      assert deltas == deltas[..|deltas| - 1] + [deltas[|deltas| - 1]];
    }
  }

  /** At a time the book would heed and no active order is newer than, the book holds nothing newer either. */
  lemma HeldIsNoNewer(base: Orders, all: seq<Order>, x: Order, o: Order)
    requires Newest(all, x) && Fresh(base, o) && o.orderHash == x.orderHash && x.updateTime <= o.updateTime
    ensures o.orderHash.value in Apply(base, all) ==> Apply(base, all)[o.orderHash.value].updateTime <= o.updateTime
  {
    var key := o.orderHash.value;
    HeldIsDelivered(base, all, key);
    if key in Apply(base, all) && Apply(base, all)[key] in all {
      var i :| 0 <= i < |all| && all[i] == Apply(base, all)[key];
    }
  }

  /** A heeded removal as new as everything active wins if it comes last and loses if an active order follows. */
  lemma LateRemovalDepends(base: Orders, all: seq<Order>, x: Order, r: Order)
    requires Newest(all, x) && Fresh(base, r) && r.orderHash == x.orderHash
    requires !r.active && r.updateTime >= x.updateTime
    ensures x.orderHash.value !in Apply(base, all + [r])
    ensures x.orderHash.value in Apply(base, all + [r, x])
  {
    assert (all + [r])[..|all|] == all;
    assert (all + [r, x])[..|all| + 1] == all + [r];
    HeldIsNoNewer(base, all, x, r);
  }

  /** Repeating one of the newest active orders at the end leaves it in the book. */
  lemma LastNewestStays(base: Orders, all: seq<Order>, x: Order)
    requires Newest(all, x) && Fresh(base, x)
    ensures x.orderHash.value in Apply(base, all + [x]) && Apply(base, all + [x])[x.orderHash.value] == x
  {
    assert (all + [x])[..|all|] == all;
    HeldIsNoNewer(base, all, x, x);
  }

  /** From this book the batch means the same in every order and under every repetition. */
  ghost predicate Reorderable(base: Orders, all: seq<Order>) {
    forall again: seq<Order> :: SameOrders(again, all) ==> Apply(base, again) == Apply(base, all)
  }

  lemma ReorderableNeeds(base: Orders, all: seq<Order>, i: nat, j: nat)
    requires Reorderable(base, all) && i < |all| && j < |all|
    requires all[i].orderHash == all[j].orderHash && Newest(all, all[i])
    ensures Newest(all, all[j]) && Fresh(base, all[i]) ==> all[i] == all[j]
    ensures !all[j].active && Fresh(base, all[j]) ==> all[j].updateTime < all[i].updateTime
  {
    hide Apply;
    var x, y := all[i], all[j];
    assert SameOrders(all + [x], all) && SameOrders(all + [y], all) && SameOrders(all + [y, x], all);
    if Newest(all, y) && Fresh(base, x) {
      LastNewestStays(base, all, x);
      LastNewestStays(base, all, y);
    }
    if !y.active && Fresh(base, y) && y.updateTime >= x.updateTime {
      LateRemovalDepends(base, all, x, y);
    }
  }

  /**
   Applied to a given book, a batch means the same in every order and under every repetition if and only
   if, of the orders that book would heed, each hash has one newest active order and no removal as new as
   it: the book keeps no tombstones.
   */
  lemma ReorderableExactly(base: Orders, all: seq<Order>)
    ensures Reorderable(base, all) <==> NewestUnique(base, all) && RemovalsAreOlder(base, all)
  {
    hide Apply, Fresh, Newest;
    if NewestUnique(base, all) && RemovalsAreOlder(base, all) {
      hide NewestUnique, RemovalsAreOlder;
      forall again: seq<Order> | SameOrders(again, all)
        ensures Apply(base, again) == Apply(base, all)
      {
        SameBook(base, all, again);
      }
    }
    if Reorderable(base, all) {
      forall i, j | 0 <= i < |all| && 0 <= j < |all| && all[i].orderHash == all[j].orderHash && Newest(all, all[i])
        ensures Newest(all, all[j]) && Fresh(base, all[i]) ==> all[i] == all[j]
        ensures !all[j].active && Fresh(base, all[j]) ==> all[j].updateTime < all[i].updateTime
      {
        ReorderableNeeds(base, all, i, j);
      }
    }
  }

  lemma SameBook(base: Orders, all: seq<Order>, again: seq<Order>)
    requires NewestUnique(base, all) && RemovalsAreOlder(base, all) && SameOrders(again, all)
    ensures Apply(base, again) == Apply(base, all)
  {
    hide Apply, NewestUnique, RemovalsAreOlder;
    forall key
      ensures key in Apply(base, again) <==> key in Apply(base, all)
      ensures key in Apply(base, again) ==> Apply(base, again)[key] == Apply(base, all)[key]
    {
      SameUnderHash(base, all, again, key);
    }
  }

  /**
   A batch may be reordered and repeated on every book exactly when it may on the empty one: each hash has
   one newest active order and all its removals are older. Active orders with distinct times per hash qualify.
   */
  lemma ReorderableEverywhereExactly(all: seq<Order>)
    ensures (forall base :: Reorderable(base, all)) <==> NewestUnique(map[], all) && RemovalsAreOlder(map[], all)
  {
    hide Reorderable, Newest;
    ReorderableExactly(map[], all);
    if NewestUnique(map[], all) && RemovalsAreOlder(map[], all) {
      forall base
        ensures Reorderable(base, all)
      {
        ReorderableExactly(base, all);
      }
    }
  }

  /** A book that holds something newer may reorder a batch the empty book may not: one with two tied orders. */
  lemma NewerBookIgnoresTies(h: string, held: Order, a: Order, b: Order)
    requires a.orderHash == b.orderHash == Some(h) && a.active && b.active && a != b
    requires a.updateTime == b.updateTime < held.updateTime
    ensures Reorderable(map[h := held], [a, b]) && !Reorderable(map[], [a, b])
  {
    hide Reorderable, Apply;
    assert Newest([a, b], [a, b][0]) && Newest([a, b], [a, b][1]);
    ReorderableExactly(map[h := held], [a, b]);
    ReorderableExactly(map[], [a, b]);
  }

  // ---------------------------------------------------------------- the frame loop

  /**
   A frame of the stream: a gap, or a publication with what the REST seed would answer if it is asked
   (None when the seed request fails).
   */
  datatype Frame = Gap | Publication(marketHash: Option<string>, deltas: seq<Order>, seed: Option<seq<Order>>)

  datatype Book = Book(orders: Orders, seeded: bool)

  const FRESH := Book(map[], false)

  /** The books by market and the gap counter; a market that is not there has the fresh book. */
  datatype Source = Source(books: map<string, Book>, gapCount: nat)

  function BookOf(s: Source, market: string): Book {
    if market in s.books then s.books[market] else FRESH
  }

  /** An unseeded book asks the seed first; a failed seed leaves it unseeded and the deltas still apply. */
  function Publish(b: Book, deltas: seq<Order>, seed: Option<seq<Order>>): Book {
    var base := if b.seeded || seed == None then b else Book(Snapshot(seed.value), true);
    base.(orders := Apply(base.orders, deltas))
  }

  function Consume(s: Source, f: Frame): Source {
    match f
    case Gap => Source(map market | market in s.books :: FRESH, s.gapCount + 1)
    case Publication(None, _, _) => s
    case Publication(Some(market), deltas, seed) =>
      s.(books := s.books[market := Publish(BookOf(s, market), deltas, seed)])
  }

  /** The consume task: one mutable book object per market, and its gap counter. */
  class Consumer {
    var books: map<string, MarketBook>
    var gapCount: nat

    /** No book object serves two markets. */
    ghost predicate Valid()
      reads this
    {
      forall m, n | m in books && n in books && m != n :: books[m] != books[n]
    }

    ghost function View(): Source
      reads this, books.Values
    {
      Source(map m | m in books :: Book(books[m].orders, books[m].seeded), gapCount)
    }

    constructor (marketHashes: seq<string>)
      ensures Valid() && (forall m | m in books :: fresh(books[m])) && gapCount == 0
      ensures forall m :: BookOf(View(), m) == FRESH
    {
      books, gapCount := map[], 0;
      new;
      for k := 0 to |marketHashes|
        invariant Valid() && gapCount == 0
        invariant forall m | m in books :: fresh(books[m])
        invariant forall m | m in books :: books[m].orders == map[] && !books[m].seeded
      {
        var book := new MarketBook();
        books := books[marketHashes[k] := book];
      }
    }

    /** for book in self._books.values(): book.invalidate() */
    method InvalidateAll()
      requires Valid()
      modifies books.Values
      ensures forall m | m in books :: books[m].orders == map[] && !books[m].seeded
    {
      var todo := books.Keys;
      while todo != {}
        invariant todo <= books.Keys
        invariant forall m | m in books && m !in todo :: books[m].orders == map[] && !books[m].seeded
        decreases |todo|
      {
        var market: string :| market in todo;
        books[market].Invalidate();
        todo := todo - {market};
      }
    }

    /** self._books.setdefault(market, _SxMarketBook()) */
    method BookFor(market: string) returns (book: MarketBook)
      requires Valid()
      modifies this`books
      ensures Valid() && books == old(books)[market := book]
      ensures market in old(books) ==> book == old(books)[market]
      ensures market !in old(books) ==> fresh(book) && book.orders == map[] && !book.seeded
    {
      if market !in books {
        var added := new MarketBook();
        books := books[market := added];
      }
      book := books[market];
    }

    /** Seed an unseeded book if the snapshot comes, then apply the deltas. */
    method SeedAndApply(book: MarketBook, deltas: seq<Order>, seed: Option<seq<Order>>)
      modifies book
      ensures Book(book.orders, book.seeded) == Publish(old(Book(book.orders, book.seeded)), deltas, seed)
    {
      if !book.seeded && seed.Some? {
        book.Seed(seed.value);
      }
      book.ApplyDeltas(deltas);
    }

    method OnPublication(market: string, deltas: seq<Order>, seed: Option<seq<Order>>)
      requires Valid()
      modifies this`books, books.Values
      ensures Valid() && market in books && books == old(books)[market := books[market]]
      ensures market !in old(books) ==> fresh(books[market])
      ensures market in old(books) ==> books[market] == old(books)[market]
      ensures Book(books[market].orders, books[market].seeded) == Publish(BookOf(old(View()), market), deltas, seed)
      ensures forall m | m in old(books) && m != market ::
                Book(books[m].orders, books[m].seeded) == old(Book(books[m].orders, books[m].seeded))
    {
      hide Publish;
      var book := BookFor(market);
      SeedAndApply(book, deltas, seed);
    }

    method OnFrame(f: Frame)
      requires Valid()
      modifies this, books.Values
      ensures Valid() && forall m | m in books && m !in old(books) :: fresh(books[m])
      ensures View() == Consume(old(View()), f)
    {
      hide Publish;
      ghost var before := View();
      match f
      case Gap =>
        gapCount := gapCount + 1;
        InvalidateAll();
      case Publication(None, _, _) =>
      case Publication(Some(market), deltas, seed) =>
        OnPublication(market, deltas, seed);
        OneBookChanged(before.books, View().books, market, Publish(BookOf(before, market), deltas, seed));
    }
  }

  lemma OneBookChanged(before: map<string, Book>, after: map<string, Book>, market: string, book: Book)
    requires after.Keys == before.Keys + {market} && after[market] == book
    requires forall m | m in before && m != market :: after[m] == before[m]
    ensures after == before[market := book]
  {
  }

  function ConsumeAll(s: Source, frames: seq<Frame>): Source {
    if frames == [] then s else Consume(ConsumeAll(s, frames[..|frames| - 1]), frames[|frames| - 1])
  }

  /** active_orders of one market, as a set of orders by hash. */
  function Served(s: Source, market: string): Orders {
    BookOf(s, market).orders
  }

  lemma ConsumeBook(s: Source, f: Frame, market: string)
    ensures BookOf(Consume(s, f), market)
         == match f
            case Gap => FRESH
            case Publication(m, deltas, seed) =>
              if m == Some(market) then Publish(BookOf(s, market), deltas, seed) else BookOf(s, market)
  {
  }

  /**
   What a publication makes of its market's book: unseeded and with an answer to the seed request, it is the book of
   that answer with the deltas applied; otherwise the deltas apply to what is there. No other book changes.
   */
  lemma PublicationMeans(s: Source, market: string, deltas: seq<Order>, seed: Option<seq<Order>>)
    ensures var after := Consume(s, Publication(Some(market), deltas, seed));
            var (was, now) := (BookOf(s, market), BookOf(after, market));
            && (now.seeded <==> was.seeded || seed.Some?)
            && (was.seeded || seed == None ==> now.orders == Apply(was.orders, deltas))
            && (!was.seeded && seed.Some? ==>
                  forall book | SeededFrom(book, seed.value) :: now.orders == Apply(book, deltas))
            && after.gapCount == s.gapCount
            && forall other | other != market :: BookOf(after, other) == BookOf(s, other)
  {
    hide Snapshot, Apply, SeededFrom;
    if !BookOf(s, market).seeded && seed.Some? {
      SnapshotSeeds(seed.value);
      forall book | SeededFrom(book, seed.value)
        ensures book == Snapshot(seed.value)
      {
        SeededOnce(book, Snapshot(seed.value), seed.value);
      }
    }
  }

  /** A gap empties and unseeds every book. */
  lemma GapMeans(s: Source, market: string)
    ensures var after := Consume(s, Gap);
            BookOf(after, market) == Book(map[], false) && after.gapCount == s.gapCount + 1
  {
  }

  /** After a seeding publication without deltas the market serves the last active order of every hash of the answer. */
  lemma SeedIsServed(s: Source, market: string, answer: seq<Order>)
    requires !BookOf(s, market).seeded
    ensures SeededFrom(Served(Consume(s, Publication(Some(market), [], Some(answer))), market), answer)
  {
    hide Snapshot, SeededFrom;
    SnapshotSeeds(answer);
    PublicationMeans(s, market, [], Some(answer));
    assert Apply(Snapshot(answer), []) == Snapshot(answer);
  }

  lemma {:induction false} SameBooksEvolveAlike(a: Source, b: Source, frames: seq<Frame>, market: string)
    requires BookOf(a, market) == BookOf(b, market)
    ensures BookOf(ConsumeAll(a, frames), market) == BookOf(ConsumeAll(b, frames), market)
  {
    if frames != [] {
      var n := |frames| - 1;
      SameBooksEvolveAlike(a, b, frames[..n], market);
      ConsumeBook(ConsumeAll(a, frames[..n]), frames[n], market);
      ConsumeBook(ConsumeAll(b, frames[..n]), frames[n], market);
    }
  }

  lemma {:induction false} ConsumeConcat(s: Source, a: seq<Frame>, b: seq<Frame>)
    ensures ConsumeAll(s, a + b) == ConsumeAll(ConsumeAll(s, a), b)
  {
    if b == [] {
      assert a + b == a;
    } else {
      assert (a + b)[..|a + b| - 1] == a + b[..|b| - 1];
      ConsumeConcat(s, a, b[..|b| - 1]);
    }
  }

  /** After a gap every market serves what it would serve had nothing at all been received before it. */
  lemma NothingSurvivesAGap(s: Source, before: seq<Frame>, after: seq<Frame>, market: string)
    ensures Served(ConsumeAll(s, before + [Gap] + after), market) == Served(ConsumeAll(Source(map[], 0), after), market)
  {
    ConsumeConcat(s, before + [Gap], after);
    assert (before + [Gap])[..|before|] == before;
    ConsumeBook(ConsumeAll(s, before), Gap, market);
    SameBooksEvolveAlike(ConsumeAll(s, before + [Gap]), Source(map[], 0), after, market);
  }

  /** The order came with one of the frames, as a delta or in its seed, for this market. */
  predicate ReceivedIn(frames: seq<Frame>, market: string, o: Order) {
    exists i | 0 <= i < |frames| ::
      frames[i].Publication? && frames[i].marketHash == Some(market)
      && (o in frames[i].deltas || (frames[i].seed.Some? && o in frames[i].seed.value))
  }

  lemma {:induction false} ApplyHolds(orders: Orders, deltas: seq<Order>, key: string)
    ensures var after := Apply(orders, deltas);
            key in after ==> (key in orders && after[key] == orders[key]) || after[key] in deltas
  {
    if deltas != [] {
      ApplyHolds(orders, deltas[..|deltas| - 1], key);
      assert deltas == deltas[..|deltas| - 1] + [deltas[|deltas| - 1]];
    }
  }

  lemma {:induction false} SnapshotHolds(orders: seq<Order>, key: string)
    ensures key in Snapshot(orders) ==> Snapshot(orders)[key] in orders
  {
    if orders != [] {
      SnapshotHolds(orders[..|orders| - 1], key);
      assert orders == orders[..|orders| - 1] + [orders[|orders| - 1]];
    }
  }

  /** From a fresh source, every served order is active, under its own hash, and was received. */
  lemma {:induction false} ServedWasReceived(frames: seq<Frame>, market: string, key: string)
    ensures Kept(Served(ConsumeAll(Source(map[], 0), frames), market))
    ensures var served := Served(ConsumeAll(Source(map[], 0), frames), market);
            key in served ==> ReceivedIn(frames, market, served[key])
  {
    if frames != [] {
      var n := |frames| - 1;
      ServedWasReceived(frames[..n], market, key);
      var s, f := ConsumeAll(Source(map[], 0), frames[..n]), frames[n];
      assert forall o :: ReceivedIn(frames[..n], market, o) ==> ReceivedIn(frames, market, o);
      if f.Publication? && f.marketHash == Some(market) {
        var b := BookOf(s, market);
        var base := if b.seeded || f.seed == None then b.orders else Snapshot(f.seed.value);
        if f.seed.Some? {
          SnapshotKeeps(f.seed.value);
          SnapshotHolds(f.seed.value, key);
        }
        ApplyKeeps(base, f.deltas);
        ApplyHolds(base, f.deltas, key);
      }
    }
  }

  /** Every order served after a gap was received after that gap. */
  lemma ServedAfterGapIsNew(s: Source, before: seq<Frame>, after: seq<Frame>, market: string, key: string)
    ensures var served := Served(ConsumeAll(s, before + [Gap] + after), market);
            key in served ==> ReceivedIn(after, market, served[key]) && served[key].active && OfHash(served[key], key)
  {
    NothingSurvivesAGap(s, before, after, market);
    ServedWasReceived(after, market, key);
  }
}
