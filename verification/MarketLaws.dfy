/** What becomes of a market order that the other side cannot fill. */
module MarketLaws {
  import opened Types
  import opened PriceTime
  import opened BookSpec
  import opened BookLaws
  import opened MatchLaws
  import opened EngineSpec
  import opened EngineLaws
  import opened PipelineLaws
  import opened RegistryLaws
  import opened FillLaws
  import opened CascadeLaws

  /** The book takes the order and the other side holds less than it asks for within its effective price. */
  predicate FallsShort(c: Core, r: Request) {
    var opp, p := r.side.Opposite(), EffectivePrice(r);
    Count(c.lob) < MAX_ORDERS && CrossQty(opp, c.lob.sides.Get(opp), p) < r.qty && HasRoom(c.lob.sides.Get(r.side), p)
  }

  /** At its turn in the book it rests, at its sentinel price, exactly then. */
  lemma ExecuteRestsIff(c: Core, r: Request)
    requires WellFormed(c.lob) && r.kind == Market && Admissible(c.lob, r)
    ensures var e, id := Execute(c, r), Execute(c, r).result.id;
      && (FallsShort(c, r) ==> id != 0)
      && (id != 0 ==>
            && Traded(Events(c, r), id) <= r.qty
            && Left(e.core.lob, id) == (if FallsShort(c, r) then r.qty - Traded(Events(c, r), id) else 0)
            && (FallsShort(c, r) ==> Traded(Events(c, r), id) < r.qty))
  {
    hide WellFormed; hide Execute; hide Left; hide FilledQty; hide CrossQty; hide HasRoom; hide Trades; hide Tail;
    hide FilledOf; hide Traded; hide Add;
    var a := Entry(c, r);
    ExecuteLog(c, r);
    EntryRestsIff(c, r);
    if a.id != 0 {
      ExecuteLeft(c, r, a.id);
      TradesTraded(a.fills, c.tradeSeq, a.id, r.side, a.id);
      TradedConcat(Trades(a.fills, c.tradeSeq, a.id, r.side), Tail(r, a), a.id);
      TailTradesNothing(r, a, a.id);
    }
  }

  /**
   A market order is documented never to rest. When the submission returns it does, exactly when the other side fell
   short and neither its own trades nor those of the stops it fired took all it asked for.
   */
  lemma MarketRestsIff(c: Core, r: Request) returns (evs: seq<Event>)
    requires WellFormed(c.lob) && r.kind == Market && Admissible(c.lob, r)
    ensures Submit(c, r).core.log == c.log + evs
    ensures OwnRests(c, r) <==> FallsShort(c, r) && Traded(evs, Submit(c, r).result.id) < r.qty
  {
    hide WellFormed; hide Execute; hide Left; hide Traded; hide Events; hide FallsShort; hide Dead; hide Admissible;
    var e := Execute(c, r);
    var id := e.result.id;
    ExecuteRestsIff(c, r);
    ExecuteKeeps(c, r);
    LogOf(c, r);
    SubmitIssues(c, r);
    SubmitQuiet(c, r);
    WellFormedNext(c.lob);
    evs := Events(c, r);
    if e.traded && e.core.lastPrice != 0 {
      var more := ScanConserves(e.core, e.core.lastPrice, 0, if id == 0 then 1 else id);
      TradedConcat(evs, more, id);
      evs := evs + more;
    }
    LiveIsLeft(Submit(c, r).core.lob, id);
  }

  /** When it fires no stop, it rests exactly when the other side fell short. */
  lemma MarketRestsUnfired(c: Core, r: Request)
    requires WellFormed(c.lob) && r.kind == Market && Admissible(c.lob, r) && FiresNothing(c, r)
    ensures OwnRests(c, r) <==> FallsShort(c, r)
  {
    hide WellFormed; hide Execute; hide Left; hide Traded; hide Events; hide FallsShort; hide Dead; hide Admissible;
    hide FiresNothing;
    ExecuteRestsIff(c, r);
    SubmitIsExecute(c, r);
    ExecuteKeeps(c, r);
    LiveIsLeft(Execute(c, r).core.lob, Execute(c, r).result.id);
  }

  lemma EntryRestsIff(c: Core, r: Request)
    requires WellFormed(c.lob) && Admissible(c.lob, r)
    ensures var a := Entry(c, r);
      && FilledQty(a.fills) <= r.qty
      && (a.status in {Accepted, Status.Partial} <==> FallsShort(c, r))
      && (a.status in {Accepted, Status.Partial} ==> a.id != 0 && FilledQty(a.fills) < r.qty)
  {
    var opp, p := r.side.Opposite(), EffectivePrice(r);
    var other := c.lob.sides.Get(opp);
    AddFills(c.lob, r.side, p, r.qty, 0);
    MatchConserves(opp, other, p, r.qty);
    PositiveSide(opp, other, c.lob.nextId);
    MatchTakesAll(opp, other, p, r.qty);
    WellFormedNext(c.lob);
    PriceIsPositive(c, r);
    hide WellFormed; hide Match; hide HasRoom; hide Enter; hide FilledQty; hide CrossQty; hide Admissible;
  }

  lemma PriceIsPositive(c: Core, r: Request)
    requires Admissible(c.lob, r)
    ensures EffectivePrice(r) > 0 && r.qty > 0
  {
  }

  /** The first order of the day, sent as a market order, rests. */
  lemma MarketCanRest(stops: seq<StopOrder>)
    ensures OwnRests(Core(EMPTY, stops, 0, 0, 0, 0, []), Request(Market, Bid, 0, 5))
  {
    var c, r := Core(EMPTY, stops, 0, 0, 0, 0, []), Request(Market, Bid, 0, 5);
    EmptyFallsShort(c, r);
    assert FiresNothing(c, r) by {
      hide CheckStops;
      var none: seq<Rest> := [];
      assert Match(Ask, none, MARKET_BID_PRICE, 5).fills == [];
    }
    hide Execute; hide Dead; hide Submit; hide FiresNothing;
    MarketRestsUnfired(c, r);
  }

  const OFFER: Rest := Rest(1, 10, 3, 3, 0)
  const SELL_STOP: StopOrder := StopOrder(2, Ask, Stop, 10, 0, 2, 0, true)

  /** One offer, and a dormant sale that a trade at its price sets off. */
  const ARMED: Core := Core(Lob(Sided([], [OFFER]), 3), [SELL_STOP], 0, 0, 0, 0, [])

  /**
   A stop can take the remainder: 5 are asked for and 3 offered, so the other side falls short, but the purchase
   fires a sale of 2 that meets what is left of it.
   */
  lemma MarketStopTakes()
    ensures WellFormed(ARMED.lob) && FallsShort(ARMED, Request(Market, Bid, 0, 5))
    ensures Submit(ARMED, Request(Market, Bid, 0, 5)).result.id == 3 && !OwnRests(ARMED, Request(Market, Bid, 0, 5))
  {
    var c, r := ARMED, Request(Market, Bid, 0, 5);
    ArmedFormed();
    FirstLeg();
    hide Execute;
    var c1 := Execute(c, r).core;
    var c2 := Fire(c1, 0);
    SecondLeg(c2);
    var c3 := Execute(c2, Request(Market, Ask, 0, 2)).core;
    SubmitIsExecute(c2, Request(Market, Ask, 0, 2));
    FireCounts(c1.stops, 0);
    QuietScan(c3, 1);
    assert Scan(c1, 10, 0) == c3;
  }

  lemma ArmedFormed()
    ensures WellFormed(ARMED.lob) && FallsShort(ARMED, Request(Market, Bid, 0, 5))
  {
    var none: seq<Rest> := [];
    assert Prices(none) == {};
    assert [OFFER][0].price == 10 && Prices([OFFER]) == {10};
    assert CrossQty(Ask, [OFFER][1..], MARKET_BID_PRICE) == 0;
  }

  lemma FirstLeg()
    ensures var e := Execute(ARMED, Request(Market, Bid, 0, 5));
      && e.core.lob == Lob(Sided([Rest(3, MARKET_BID_PRICE, 2, 5, 0)], []), 4) && e.result.id == 3 && e.traded
      && e.core.stops == [SELL_STOP] && e.core.lastPrice == 10
  {
    var m := Match(Ask, [OFFER], MARKET_BID_PRICE, 5);
    assert [OFFER][1..] == [];
    assert Match(Ask, [OFFER][1..], MARKET_BID_PRICE, 2) == Matched([], [], 2);
    assert m == Matched([Fill(1, 10, 3)], [], 2);
    var fills := m.fills;
    assert fills[1..] == [] && FilledQty(fills) == 3;
    var none: seq<Rest> := [];
    assert Prices(none) == {};
    assert Enter(Bid, none, Rest(3, MARKET_BID_PRICE, 2, 5, 0)) == [Rest(3, MARKET_BID_PRICE, 2, 5, 0)];
  }

  lemma SecondLeg(c: Core)
    requires c.lob == Lob(Sided([Rest(3, MARKET_BID_PRICE, 2, 5, 0)], []), 4)
    requires |c.stops| == 1 && !c.stops[0].active
    ensures var e := Execute(c, Request(Market, Ask, 0, 2));
      && e.core.lob == Lob(Sided([], []), 5) && e.core.stops == c.stops && FiresNothing(c, Request(Market, Ask, 0, 2))
      && Quiet(e.core)
  {
    var s := [Rest(3, MARKET_BID_PRICE, 2, 5, 0)];
    assert s[1..] == [];
    assert Match(Bid, s[1..], MARKET_ASK_PRICE, 0) == Matched([], [], 0);
    assert Match(Bid, s, MARKET_ASK_PRICE, 2) == Matched([Fill(3, MARKET_BID_PRICE, 2)], [], 0);
    var fills := [Fill(3, MARKET_BID_PRICE, 2)];
    assert fills[1..] == [] && FilledQty(fills) == 2;
  }

  lemma EmptyFallsShort(c: Core, r: Request)
    requires c.lob == EMPTY && r.kind == Market && r.price == 0 && r.qty > 0
    ensures WellFormed(c.lob) && Admissible(c.lob, r) && FallsShort(c, r)
  {
    ReachableWellFormed([]);
    assert Run(EMPTY, []) == EMPTY;
    var none: seq<Rest> := [];
    assert Prices(none) == {};
  }
}
