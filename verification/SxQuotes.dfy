/**
 The top-of-book reduction of scripts/maker/sx_bet_poller.py: a two-way market's active orders to one quote
 for outcome one. What the quote depends on: not the side an outcome is called, not the order of the
 orders -- except for the size shown when several orders tie at the touch.
 */
module SxQuotes {
  import opened Prelude
  import Folds

  const ODDS_SCALE := 100000000000000000000
  const USDC_UNIT := 1000000

  /** active: orderStatus is ACTIVE or absent. */
  datatype Offer = Offer(percentageOdds: int, totalBetSize: int, betsOutcomeOne: bool, active: bool)

  datatype Quote = Quote(bid: Option<real>, ask: Option<real>, mid: Option<real>, bidSize: real, askSize: real,
                         nOrders: nat)

  function TakerProb(o: Offer): real {
    (ODDS_SCALE - o.percentageOdds) as real / ODDS_SCALE as real
  }

  function SizeUsdc(o: Offer): real {
    o.totalBetSize as real / USDC_UNIT as real
  }

  predicate IsActive(o: Offer) { o.active }

  /** Offers outcome one to takers. */
  predicate IsAsk(o: Offer) { o.active && !o.betsOutcomeOne }

  /** Offers outcome two to takers. */
  predicate IsBid(o: Offer) { o.active && o.betsOutcomeOne }

  /** min(offers, key=taker prob): the first of the lowest. */
  function Best(offers: seq<Offer>): Offer
    requires offers != []
  {
    var n := |offers| - 1;
    if n == 0 then offers[0]
    else
      var best := Best(offers[..n]);
      if TakerProb(offers[n]) < TakerProb(best) then offers[n] else best
  }

  function QuoteOf(orders: seq<Offer>): Quote {
    var (asks, bids) := (Filter(orders, IsAsk), Filter(orders, IsBid));
    var ask := if asks == [] then None else Some(TakerProb(Best(asks)));
    var bid := if bids == [] then None else Some(1.0 - TakerProb(Best(bids)));
    Quote(bid, ask, if bid.Some? && ask.Some? then Some((bid.value + ask.value) / 2.0) else None,
          if bids == [] then 0.0 else SizeUsdc(Best(bids)), if asks == [] then 0.0 else SizeUsdc(Best(asks)),
          |Filter(orders, IsActive)|)
  }

  // ---------------------------------------------------------------- the best offer

  predicate AtTouch(o: Offer, offers: seq<Offer>) {
    o in offers && forall p | p in offers :: TakerProb(o) <= TakerProb(p)
  }

  lemma {:induction false} BestIsLowest(offers: seq<Offer>)
    requires offers != []
    ensures AtTouch(Best(offers), offers)
  {
    hide TakerProb;
    var n := |offers| - 1;
    if n > 0 {
      BestIsLowest(offers[..n]);
      assert offers == offers[..n] + [offers[n]];
    }
  }

  lemma {:induction false} SameTouch(a: seq<Offer>, b: seq<Offer>)
    requires a != [] && multiset(a) == multiset(b)
    ensures b != [] && TakerProb(Best(a)) == TakerProb(Best(b)) && AtTouch(Best(b), a)
  {
    hide TakerProb, Best;
    assert |multiset(a)| == |multiset(b)|;
    SameMembers(a, b);
    BestIsLowest(a);
    BestIsLowest(b);
  }

  /** The order that a side shows: active, on this side, at the longest odds, the first of them. */
  predicate Touch(orders: seq<Offer>, i: nat, betsOutcomeOne: bool) {
    && i < |orders| && orders[i].active && orders[i].betsOutcomeOne == betsOutcomeOne
    && (forall j | 0 <= j < |orders| && orders[j].active && orders[j].betsOutcomeOne == betsOutcomeOne ::
          orders[j].percentageOdds <= orders[i].percentageOdds)
    && forall j | 0 <= j < i && orders[j].active && orders[j].betsOutcomeOne == betsOutcomeOne ::
         orders[j].percentageOdds < orders[i].percentageOdds
  }

  lemma TouchSnoc(front: seq<Offer>, last: Offer, i: nat, betsOutcomeOne: bool)
    requires Touch(front, i, betsOutcomeOne)
    ensures if last.active && last.betsOutcomeOne == betsOutcomeOne && last.percentageOdds > front[i].percentageOdds
            then Touch(front + [last], |front|, betsOutcomeOne) else Touch(front + [last], i, betsOutcomeOne)
  {
    var all := front + [last];
    assert forall j | 0 <= j < |front| :: all[j] == front[j];
    assert all[|front|] == last;
  }

  lemma TouchFirst(front: seq<Offer>, last: Offer, betsOutcomeOne: bool)
    requires forall o | o in front :: !(o.active && o.betsOutcomeOne == betsOutcomeOne)
    requires last.active && last.betsOutcomeOne == betsOutcomeOne
    ensures Touch(front + [last], |front|, betsOutcomeOne)
  {
    var all := front + [last];
    assert forall j | 0 <= j < |front| :: all[j] == front[j] && front[j] in front;
  }

  lemma BestSnoc(offers: seq<Offer>, o: Offer)
    ensures Best(offers + [o]) == if offers == [] || TakerProb(o) < TakerProb(Best(offers)) then o else Best(offers)
  {
    assert (offers + [o])[..|offers|] == offers;
  }

  /** min keeps the first of the lowest: which order of a side is shown. */
  lemma {:induction false} BestOfSide(orders: seq<Offer>, p: Offer -> bool, betsOutcomeOne: bool) returns (i: nat)
    requires Filter(orders, p) != []
    requires forall o: Offer :: p(o) <==> o.active && o.betsOutcomeOne == betsOutcomeOne
    ensures Touch(orders, i, betsOutcomeOne) && Best(Filter(orders, p)) == orders[i]
  {
    hide TakerProb, Filter, Best, Touch;
    NoneOfSide(orders, p);
    var front, last := orders[..|orders| - 1], orders[|orders| - 1];
    assert orders == front + [last];
    FilterSnoc(front, last, p);
    BestSnoc(Filter(front, p), last);
    if Filter(front, p) == [] {
      i := |front|;
      NoneOfSide(front, p);
      TouchFirst(front, last, betsOutcomeOne);
    } else {
      i := BestOfSide(front, p, betsOutcomeOne);
      InRange(front, i, betsOutcomeOne);
      TouchSnoc(front, last, i, betsOutcomeOne);
      LowerProb(front[i], last);
      if p(last) && TakerProb(last) < TakerProb(front[i]) {
        i := |front|;
      }
    }
  }

  lemma InRange(orders: seq<Offer>, i: nat, betsOutcomeOne: bool)
    requires Touch(orders, i, betsOutcomeOne)
    ensures i < |orders|
  {
  }

  lemma {:induction false} NoneOfSide(orders: seq<Offer>, p: Offer -> bool)
    ensures Filter(orders, p) == [] <==> forall o | o in orders :: !p(o)
  {
    if orders != [] {
      var front, last := orders[..|orders| - 1], orders[|orders| - 1];
      assert orders == front + [last];
      NoneOfSide(front, p);
    }
  }

  lemma OneTouchPerSide(orders: seq<Offer>, i: nat, j: nat, betsOutcomeOne: bool)
    requires Touch(orders, i, betsOutcomeOne) && Touch(orders, j, betsOutcomeOne)
    ensures i == j
  {
  }

  /**
   The quote, order by order. The ask is what the best maker on outcome two leaves a taker of outcome one to pay, and
   its size is that maker's, in millionths; there is none exactly when no active order bets on outcome two.
   */
  lemma AskShows(orders: seq<Offer>)
    ensures QuoteOf(orders).ask == None <==> forall o | o in orders :: !(o.active && !o.betsOutcomeOne)
    ensures QuoteOf(orders).ask.Some? <==> exists i: nat :: Touch(orders, i, false)
    ensures forall i: nat | Touch(orders, i, false) ::
              && QuoteOf(orders).ask == Some(1.0 - orders[i].percentageOdds as real / 100000000000000000000.0)
              && QuoteOf(orders).askSize == orders[i].totalBetSize as real / 1000000.0
    ensures QuoteOf(orders).ask == None ==> QuoteOf(orders).askSize == 0.0
  {
    hide Filter, Best, TakerProb, SizeUsdc, Touch;
    NoneOfSide(orders, IsAsk);
    if Filter(orders, IsAsk) != [] {
      var k := BestOfSide(orders, IsAsk, false);
      InRange(orders, k, false);
      Figures(orders[k]);
      forall i: nat | Touch(orders, i, false)
        ensures i == k
      {
        OneTouchPerSide(orders, i, k, false);
      }
    } else {
      NoTouch(orders, false);
    }
  }

  /** The bid is the odds of the best maker on outcome one. */
  lemma BidShows(orders: seq<Offer>)
    ensures QuoteOf(orders).bid == None <==> forall o | o in orders :: !(o.active && o.betsOutcomeOne)
    ensures QuoteOf(orders).bid.Some? <==> exists i: nat :: Touch(orders, i, true)
    ensures forall i: nat | Touch(orders, i, true) ::
              && QuoteOf(orders).bid == Some(orders[i].percentageOdds as real / 100000000000000000000.0)
              && QuoteOf(orders).bidSize == orders[i].totalBetSize as real / 1000000.0
    ensures QuoteOf(orders).bid == None ==> QuoteOf(orders).bidSize == 0.0
    ensures var q := QuoteOf(orders);
            q.mid == if q.ask.Some? && q.bid.Some? then Some((q.ask.value + q.bid.value) / 2.0) else None
  {
    hide Filter, Best, TakerProb, SizeUsdc, Touch;
    NoneOfSide(orders, IsBid);
    if Filter(orders, IsBid) != [] {
      var k := BestOfSide(orders, IsBid, true);
      InRange(orders, k, true);
      Figures(orders[k]);
      forall i: nat | Touch(orders, i, true)
        ensures i == k
      {
        OneTouchPerSide(orders, i, k, true);
      }
    } else {
      NoTouch(orders, true);
    }
  }

  /** The count is of the active orders, on both sides. */
  lemma CountShows(orders: seq<Offer>, o: Offer)
    ensures QuoteOf([]).nOrders == 0
    ensures QuoteOf(orders + [o]).nOrders == QuoteOf(orders).nOrders + if o.active then 1 else 0
  {
    hide Best;
    FilterSnoc(orders, o, IsActive);
  }

  lemma NoTouch(orders: seq<Offer>, betsOutcomeOne: bool)
    requires forall o | o in orders :: !(o.active && o.betsOutcomeOne == betsOutcomeOne)
    ensures forall i: nat :: !Touch(orders, i, betsOutcomeOne)
  {
    forall i: nat
      ensures !Touch(orders, i, betsOutcomeOne)
    {
      if i < |orders| {
        assert orders[i] in orders;
      }
    }
  }

  lemma Figures(o: Offer)
    ensures TakerProb(o) == 1.0 - o.percentageOdds as real / 100000000000000000000.0
    ensures SizeUsdc(o) == o.totalBetSize as real / 1000000.0
  {
  }

  // ---------------------------------------------------------------- order of the orders

  /** Offers tied at the touch show one size. */
  ghost predicate OneSizeAtTouch(offers: seq<Offer>) {
    forall o, p | AtTouch(o, offers) && AtTouch(p, offers) :: SizeUsdc(o) == SizeUsdc(p)
  }

  /** Prices and the order count do not depend on the order the orders come in. */
  lemma PricesIgnoreOrder(a: seq<Offer>, b: seq<Offer>)
    requires multiset(a) == multiset(b)
    ensures QuoteOf(a).bid == QuoteOf(b).bid && QuoteOf(a).ask == QuoteOf(b).ask && QuoteOf(a).mid == QuoteOf(b).mid
    ensures QuoteOf(a).nOrders == QuoteOf(b).nOrders
  {
    hide Filter, TakerProb, Best;
    forall p: Offer -> bool
      ensures multiset(Filter(a, p)) == multiset(Filter(b, p)) && |Filter(a, p)| == |Filter(b, p)|
    {
      Folds.FilterPermutation(a, b, p);
      assert |multiset(Filter(a, p))| == |multiset(Filter(b, p))|;
    }
    if Filter(a, IsAsk) != [] {
      SameTouch(Filter(a, IsAsk), Filter(b, IsAsk));
    }
    if Filter(a, IsBid) != [] {
      SameTouch(Filter(a, IsBid), Filter(b, IsBid));
    }
  }

  lemma SizesWhenOneAtTouch(a: seq<Offer>, b: seq<Offer>)
    requires multiset(a) == multiset(b)
    requires OneSizeAtTouch(Filter(a, IsAsk)) && OneSizeAtTouch(Filter(a, IsBid))
    ensures QuoteOf(b) == QuoteOf(a)
  {
    hide Filter, TakerProb, Best, SizeUsdc;
    PricesIgnoreOrder(a, b);
    SideSize(a, b, IsAsk);
    SideSize(a, b, IsBid);
  }

  lemma {:induction false} SideSize(a: seq<Offer>, b: seq<Offer>, p: Offer -> bool)
    requires multiset(a) == multiset(b) && OneSizeAtTouch(Filter(a, p))
    ensures Filter(a, p) == [] <==> Filter(b, p) == []
    ensures Filter(a, p) != [] ==> SizeUsdc(Best(Filter(a, p))) == SizeUsdc(Best(Filter(b, p)))
  {
    hide Filter, TakerProb, Best, SizeUsdc;
    Folds.FilterPermutation(a, b, p);
    assert |multiset(Filter(a, p))| == |multiset(Filter(b, p))|;
    if Filter(a, p) != [] {
      SameTouch(Filter(a, p), Filter(b, p));
      BestIsLowest(Filter(a, p));
    }
  }

  lemma {:induction false} FirstAtTouchWins(o: Offer, rest: seq<Offer>)
    requires AtTouch(o, [o] + rest)
    ensures Best([o] + rest) == o
  {
    hide TakerProb;
    if rest != [] {
      var n := |rest| - 1;
      assert ([o] + rest)[..n + 1] == [o] + rest[..n];
      assert forall p | p in [o] + rest[..n] :: p in [o] + rest;
      FirstAtTouchWins(o, rest[..n]);
      assert rest[n] in [o] + rest;
    }
  }

  function ToFront(orders: seq<Offer>, i: nat): seq<Offer>
    requires i < |orders|
  {
    [orders[i]] + (orders[..i] + orders[i + 1..])
  }

  lemma ToFrontPermutes(orders: seq<Offer>, i: nat)
    requires i < |orders|
    ensures multiset(ToFront(orders, i)) == multiset(orders)
  {
    Folds.RemoveOne(orders, i);
  }

  /** Bringing one of the orders at the touch to the front makes it the one whose size is shown. */
  lemma {:induction false} FrontShown(orders: seq<Offer>, i: nat, p: Offer -> bool)
    requires i < |orders| && p(orders[i]) && AtTouch(orders[i], Filter(orders, p))
    ensures var front := Filter(ToFront(orders, i), p); front != [] && Best(front) == orders[i]
  {
    hide TakerProb, Best, Filter;
    var o, rest := orders[i], orders[..i] + orders[i + 1..];
    FilterConcat([o], rest, p);
    FilterOne(o, p);
    ToFrontPermutes(orders, i);
    Folds.FilterPermutation(ToFront(orders, i), orders, p);
    SameMembers(Filter(ToFront(orders, i), p), Filter(orders, p));
    FirstAtTouchWins(o, Filter(rest, p));
  }

  lemma FilterOne(o: Offer, p: Offer -> bool)
    requires p(o)
    ensures Filter([o], p) == [o]
  {
  }

  /** The whole quote ignores the order of the orders exactly when the offers tied at each touch show one size. */
  lemma {:induction false} QuoteIgnoresOrderExactly(a: seq<Offer>)
    ensures (forall b | multiset(a) == multiset(b) :: QuoteOf(b) == QuoteOf(a))
       <==> OneSizeAtTouch(Filter(a, IsAsk)) && OneSizeAtTouch(Filter(a, IsBid))
  {
    hide TakerProb, Best, Filter, SizeUsdc, AtTouch;
    if OneSizeAtTouch(Filter(a, IsAsk)) && OneSizeAtTouch(Filter(a, IsBid)) {
      hide QuoteOf, OneSizeAtTouch;
      forall b | multiset(a) == multiset(b)
        ensures QuoteOf(b) == QuoteOf(a)
      {
        SizesWhenOneAtTouch(a, b);
      }
    }
    if forall b | multiset(a) == multiset(b) :: QuoteOf(b) == QuoteOf(a) {
      forall o, q | AtTouch(o, Filter(a, IsAsk)) && AtTouch(q, Filter(a, IsAsk))
        ensures SizeUsdc(o) == SizeUsdc(q)
      {
        AskSizeShown(a, o);
        AskSizeShown(a, q);
      }
      forall o, q | AtTouch(o, Filter(a, IsBid)) && AtTouch(q, Filter(a, IsBid))
        ensures SizeUsdc(o) == SizeUsdc(q)
      {
        BidSizeShown(a, o);
        BidSizeShown(a, q);
      }
    }
  }

  lemma AskSizeShown(a: seq<Offer>, o: Offer)
    requires AtTouch(o, Filter(a, IsAsk)) && forall b | multiset(a) == multiset(b) :: QuoteOf(b) == QuoteOf(a)
    ensures QuoteOf(a).askSize == SizeUsdc(o)
  {
    hide TakerProb, Best, Filter, SizeUsdc;
    var i :| 0 <= i < |a| && a[i] == o;
    ToFrontPermutes(a, i);
    FrontShown(a, i, IsAsk);
    assert QuoteOf(ToFront(a, i)).askSize == SizeUsdc(o);
  }

  lemma BidSizeShown(a: seq<Offer>, o: Offer)
    requires AtTouch(o, Filter(a, IsBid)) && forall b | multiset(a) == multiset(b) :: QuoteOf(b) == QuoteOf(a)
    ensures QuoteOf(a).bidSize == SizeUsdc(o)
  {
    hide TakerProb, Best, Filter, SizeUsdc;
    var i :| 0 <= i < |a| && a[i] == o;
    ToFrontPermutes(a, i);
    FrontShown(a, i, IsBid);
    assert QuoteOf(ToFront(a, i)).bidSize == SizeUsdc(o);
  }

  /** Where it depends: two offers tied at the touch with different sizes, in one order and in the other. */
  lemma TiedSizesShowTheFirst(odds: int, x: int, y: int)
    requires x != y
    ensures var (a, b) := (Offer(odds, x, false, true), Offer(odds, y, false, true));
            && multiset([a, b]) == multiset([b, a])
            && QuoteOf([a, b]).ask == QuoteOf([b, a]).ask && QuoteOf([a, b]).askSize != QuoteOf([b, a]).askSize
  {
    var (a, b) := (Offer(odds, x, false, true), Offer(odds, y, false, true));
    OneTouch(a, b);
    OneTouch(b, a);
  }

  lemma OneTouch(a: Offer, b: Offer)
    requires IsAsk(a) && IsAsk(b) && a.percentageOdds == b.percentageOdds
    ensures QuoteOf([a, b]).ask == Some(TakerProb(a)) && QuoteOf([a, b]).askSize == SizeUsdc(a)
  {
    hide Filter;
    assert [a, b] == [a] + [b] && [a, b][..1] == [a];
    FilterOne(a, IsAsk);
    FilterSnoc([a], b, IsAsk);
    assert TakerProb(a) == TakerProb(b);
    assert Best([a]) == a && Best([a, b]) == a;
  }

  // ---------------------------------------------------------------- naming the outcomes

  function Swapped(o: Offer): Offer {
    o.(betsOutcomeOne := !o.betsOutcomeOne)
  }

  lemma {:induction false} FilterSwapped(orders: seq<Offer>)
    ensures Filter(Map(orders, Swapped), IsAsk) == Map(Filter(orders, IsBid), Swapped)
    ensures Filter(Map(orders, Swapped), IsBid) == Map(Filter(orders, IsAsk), Swapped)
    ensures Filter(Map(orders, Swapped), IsActive) == Map(Filter(orders, IsActive), Swapped)
  {
    Folds.FilterOfMap(orders, Swapped, IsAsk, IsBid);
    Folds.FilterOfMap(orders, Swapped, IsBid, IsAsk);
    Folds.FilterOfMap(orders, Swapped, IsActive, IsActive);
  }

  lemma {:induction false} BestSwapped(offers: seq<Offer>)
    requires offers != []
    ensures Best(Map(offers, Swapped)) == Swapped(Best(offers))
  {
    var n := |offers| - 1;
    if n > 0 {
      BestSwapped(offers[..n]);
      assert Map(offers, Swapped)[..n] == Map(offers[..n], Swapped);
    }
  }

  function OneMinus(x: Option<real>): Option<real> {
    if x.Some? then Some(1.0 - x.value) else None
  }

  /** Calling outcome one outcome two turns the quote over: bid and ask trade places about 1, and so do the sizes. */
  lemma SwappingOutcomesMirrors(orders: seq<Offer>)
    ensures var (q, r) := (QuoteOf(orders), QuoteOf(Map(orders, Swapped)));
            && r.ask == OneMinus(q.bid) && r.bid == OneMinus(q.ask) && r.mid == OneMinus(q.mid)
            && r.askSize == q.bidSize && r.bidSize == q.askSize && r.nOrders == q.nOrders
  {
    hide Filter, Best;
    FilterSwapped(orders);
    if Filter(orders, IsAsk) != [] {
      BestSwapped(Filter(orders, IsAsk));
    }
    if Filter(orders, IsBid) != [] {
      BestSwapped(Filter(orders, IsBid));
    }
  }

  // ---------------------------------------------------------------- crossed quotes

  /** The quote is crossed exactly when two makers on opposite outcomes together offer more than certainty. */
  lemma CrossedExactly(orders: seq<Offer>)
    ensures var q := QuoteOf(orders);
            (q.bid.Some? && q.ask.Some? && q.bid.value > q.ask.value
             <==> exists o, p | o in orders && p in orders ::
                    IsBid(o) && IsAsk(p) && o.percentageOdds + p.percentageOdds > ODDS_SCALE)
  {
    hide Filter, Best;
    var (asks, bids) := (Filter(orders, IsAsk), Filter(orders, IsBid));
    if asks != [] && bids != [] {
      BestIsLowest(asks);
      BestIsLowest(bids);
      var (ask, bid) := (Best(asks), Best(bids));
      Odds(bid, ask);
      forall o, p | o in bids && p in asks && o.percentageOdds + p.percentageOdds > ODDS_SCALE
        ensures bid.percentageOdds + ask.percentageOdds > ODDS_SCALE
      {
        LowerProb(bid, o);
        LowerProb(ask, p);
      }
    }
  }

  lemma Odds(bid: Offer, ask: Offer)
    ensures 1.0 - TakerProb(bid) > TakerProb(ask) <==> bid.percentageOdds + ask.percentageOdds > ODDS_SCALE
  {
  }

  lemma LowerProb(a: Offer, b: Offer)
    ensures TakerProb(a) <= TakerProb(b) <==> a.percentageOdds >= b.percentageOdds
  {
  }
}
