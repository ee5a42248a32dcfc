/** A run of the pipeline on which settlement is not zero-sum. */
module PipelineRuns {
  import opened Arith
  import opened Types
  import opened PriceTime
  import opened BookSpec
  import opened BookLaws
  import opened EngineSpec
  import opened EngineLaws
  import opened PipelineSpec
  import opened PipelineLaws
  import G = GatewaySpec

  const SELL: G.Raw := G.Raw(1, G.ACT_NEW, 0, 1, 0, 1, 10, 0, 5, 0, 0, 0, 0)
  const BUY_STOP: G.Raw := G.Raw(1, G.ACT_NEW, 0, 2, 4, 0, 0, 10, 1, 0, 0, 0, 0)
  const BUY: G.Raw := G.Raw(1, G.ACT_NEW, 0, 2, 0, 0, 10, 0, 1, 0, 0, 0, 0)

  /** Account 1 offers 5 at 10; account 2 enters a buy stop for 1 at 10, and then buys 1 at 10. */
  const INPUTS: seq<Input> := [Input(SELL, 0, true), Input(BUY_STOP, 0, true), Input(BUY, 0, true)]

  /** One offer at 10, by the order of id 1: qty is left of the original quantity. */
  function Offering(original: nat, qty: nat, nextId: nat): Lob {
    Lob(Sided([], [Rest(1, 10, qty, original, 0)]), nextId)
  }

  lemma SellRests(c: Core, qty: nat)
    requires c.lob == EMPTY && qty > 0
    ensures var e := Submit(c, Request(Limit, Ask, 10, qty));
      && e.core.lob == Offering(qty, qty, 2) && e.result.id == 1 && e.core.stops == c.stops
      && e.core.log == c.log + [OrderEvent(OrderAccepted, 1, Ask, Limit, 10, qty, qty, 0)]
  {
    assert Prices(EMPTY.sides.ask) == {};
    assert Enter(Ask, EMPTY.sides.ask, Rest(1, 10, qty, qty, 0)) == [Rest(1, 10, qty, qty, 0)];
    assert Add(EMPTY, Ask, 10, qty, 0) == Added(Offering(qty, qty, 2), Accepted, 1, []);
    assert c.log + [] + [] == c.log;
  }

  /** One unit of the offer is bought. */
  lemma BuyTrades(c: Core, kind: OrderType, price: int, original: nat, qty: nat, n: nat)
    requires c.lob == Offering(original, qty, n) && qty > 1 && ((kind == Limit && price == 10) || (kind == Market && price == 0))
    ensures var e := Execute(c, Request(kind, Bid, price, 1));
      && e.core.lob == Offering(original, qty - 1, n + 1) && e.result.id == n && e.traded
      && e.core.stops == c.stops && e.core.lastPrice == 10 && e.core.tradeSeq == c.tradeSeq + 1
      && e.core.log == c.log + [Trade(c.tradeSeq + 1, n, 1, Bid, 10, 1), OrderEvent(OrderFilled, n, Bid, kind, price, 1, 0, 1)]
  {
    var limit := if kind == Limit then price else MARKET_BID_PRICE;
    var m := Match(Ask, c.lob.sides.ask, limit, 1);
    assert m == Matched([Fill(1, 10, 1)], [Rest(1, 10, qty - 1, original, 0)], 0);
    var fills := m.fills;
    assert fills[1..] == [];
    assert FilledQty(fills) == 1;
    assert Trades(fills, c.tradeSeq, n, Bid) == [Trade(c.tradeSeq + 1, n, 1, Bid, 10, 1)];
  }

  function Dormant(id: nat): StopOrder {
    StopOrder(id, Bid, Stop, 10, 0, 1, 0, true)
  }

  ghost predicate Idle(stops: seq<StopOrder>) {
    stops != [] && forall i | 0 <= i < |stops| :: !stops[i].active
  }

  /** What a purchase under id n announces: its own trade, the stop, and the trade of the order it turns into. */
  function Announced(tradeSeq: nat, n: nat): seq<Event>
    requires n > 0
  {
    [Trade(tradeSeq + 1, n, 1, Bid, 10, 1), OrderEvent(OrderFilled, n, Bid, Limit, 10, 1, 0, 1)]
    + ([OrderEvent(StopTriggered, n - 1, Bid, Stop, 10, 1, 1, 0)]
       + [Trade(tradeSeq + 2, n + 1, 1, Bid, 10, 1), OrderEvent(OrderFilled, n + 1, Bid, Market, 0, 1, 0, 1)])
  }

  lemma StopFires(c: Core, idle: seq<StopOrder>, original: nat, qty: nat, n: nat)
    requires qty > 2 && n > 0
    requires c.lob == Offering(original, qty, n) && Idle(idle) && c.stops == idle[0 := Dormant(n - 1)]
    ensures var e := Submit(c, Request(Limit, Bid, 10, 1));
      && e.result.id == n && e.core.log == c.log + Announced(c.tradeSeq, n)
      && e.core.lob == Offering(original, qty - 2, n + 2) && Idle(e.core.stops)
  {
    hide Execute;
    BuyTrades(c, Limit, 10, original, qty, n);
    var c1 := Execute(c, Request(Limit, Bid, 10, 1)).core;
    var c2 := Fire(c1, 0);
    BuyTrades(c2, Market, 0, original, qty - 1, n + 1);
    var c3 := Execute(c2, Request(Market, Bid, 0, 1)).core;
    assert Quiet(c3);
    SubmitIsExecute(c2, Request(Market, Bid, 0, 1));
    FireCounts(c1.stops, 0);
    QuietScan(c3, 1);
    assert Scan(c1, 10, 0) == c3;
    assert c3.log == c.log + Announced(c.tradeSeq, n);
  }

  const OWNERS: seq<Owner> := [Owner(1, 1), Owner(2, 2), Owner(3, 2)]

  /** Of the two trades among the events announced, the stop's leaves the totals out. */
  lemma AnnouncedSettles(seats: seq<Seat>, tradeSeq: nat)
    requires Known(seats, 1) && Known(seats, 2)
    ensures var t := SettleAll(OWNERS, seats, Announced(tradeSeq, 3));
      TotalNet(t) == TotalNet(seats) - 1 && TotalCash(t) == TotalCash(seats) + 10
  {
    hide Known; hide TotalNet; hide TotalCash; hide OwnerOf; hide SettleAll;
    var s := Announced(tradeSeq, 3);
    OwnersAre();
    NobodyKnown(seats);
    SettleAllMoves(OWNERS, seats, s);
    var a, b, c, d := s[1..], s[2..], s[3..], s[4..];
    assert a[1..] == b && b[1..] == c && c[1..] == d && d[1..] == [];
    assert a[0] == s[1] && b[0] == s[2] && c[0] == s[3] && d[0] == s[4];
    assert Gap(OWNERS, seats, s[0]) == 0 && Gap(OWNERS, seats, s[3]) == -1 && PriceOf(s[3]) == 10;
    assert Gap(OWNERS, seats, s[1]) == Gap(OWNERS, seats, s[2]) == Gap(OWNERS, seats, s[4]) == 0;
    assert PriceOf(s[0]) == 10 && PriceOf(s[1]) == PriceOf(s[2]) == PriceOf(s[4]) == 0;
    hide Gap; hide PriceOf;
    MulZero(0);
    MulZero(10);
    assert CashGaps(OWNERS, seats, d) == Gap(OWNERS, seats, d[0]) * PriceOf(d[0]) + CashGaps(OWNERS, seats, d[1..]);
    assert CashGaps(OWNERS, seats, d[1..]) == 0;
    assert Gaps(OWNERS, seats, d) == 0 && CashGaps(OWNERS, seats, d) == 0;
    assert Gaps(OWNERS, seats, c) == -1 && CashGaps(OWNERS, seats, c) == -10;
    assert Gaps(OWNERS, seats, b) == -1 && CashGaps(OWNERS, seats, b) == -10;
    assert Gaps(OWNERS, seats, a) == -1 && CashGaps(OWNERS, seats, a) == -10;
  }

  lemma OwnersAre()
    ensures OwnerOf(OWNERS, 1) == 1 && OwnerOf(OWNERS, 3) == 2 && OwnerOf(OWNERS, 4) == 0
  {
    assert OWNERS[1..] == [Owner(2, 2), Owner(3, 2)] && OWNERS[1..][1..] == [Owner(3, 2)];
    assert OWNERS[1..][1..][1..] == [];
  }

  lemma NobodyKnown(seats: seq<Seat>)
    ensures !Known(seats, 0)
  {
  }

  lemma SellHandled(p: Pipe)
    requires p.core.lob == EMPTY && Known(p.seats, 1)
    ensures var p' := After(p, INPUTS[0]);
      && p'.core.lob == Offering(5, 5, 2) && p'.core.stops == p.core.stops
      && p'.owners == Remember(p.owners, 1, 1) && p'.seats == p.seats
  {
    hide Submit; hide SettleAll; hide Settle; hide Known;
    SellRests(p.core, 5);
    var evs := [OrderEvent(OrderAccepted, 1, Ask, Limit, 10, 5, 5, 0)];
    var p' := Routed(p, SELL, 0);
    EmittedIs(p.core, p'.core, evs);
    SettleFew(p'.owners, p.seats);
    SettleOther(p'.owners, p.seats, evs[0]);
  }

  lemma StopHandled(p: Pipe)
    requires p.core.lob == Offering(5, 5, 2) && Idle(p.core.stops) && Known(p.seats, 2)
    ensures var p' := After(p, INPUTS[1]);
      && p'.core.lob == Offering(5, 5, 3) && p'.core.stops == p.core.stops[0 := Dormant(2)]
      && p'.owners == Remember(p.owners, 2, 2) && p'.seats == p.seats
  {
    hide SettleAll; hide Settle; hide Known;
    assert FirstFree(p.core.stops) == 0;
    var evs := [OrderEvent(OrderAccepted, 2, Bid, Stop, 10, 1, 1, 0)];
    var p' := Routed(p, BUY_STOP, 0);
    EmittedIs(p.core, p'.core, evs);
    SettleFew(p'.owners, p.seats);
    SettleOther(p'.owners, p.seats, evs[0]);
  }

  lemma BuyHandled(p: Pipe, idle: seq<StopOrder>)
    requires p.core.lob == Offering(5, 5, 3) && Idle(idle) && p.core.stops == idle[0 := Dormant(2)] && Known(p.seats, 2)
    requires p.owners == [Owner(1, 1), Owner(2, 2)]
    ensures var p' := After(p, INPUTS[2]); p'.seats == SettleAll(OWNERS, p.seats, Announced(p.core.tradeSeq, 3))
  {
    hide Submit; hide SettleAll; hide Known; hide Announced;
    StopFires(p.core, idle, 5, 5, 3);
    assert p.owners + [Owner(3, 2)] == OWNERS;
    EmittedIs(p.core, Routed(p, BUY, 0).core, Announced(p.core.tradeSeq, 3));
  }

  /**
   A stop that fires trades under an id that nobody owns, so only the other side of its trade is settled: from an
   empty pipeline with both accounts set up, three orders leave the totals one unit and its price out.
   */
  lemma StopUnbalances(stops: seq<StopOrder>, seats: seq<Seat>)
    requires Idle(stops) && Known(seats, 1) && Known(seats, 2)
    ensures var p := RunAll(Opening(stops, seats), INPUTS);
      TotalNet(p.seats) == TotalNet(seats) - 1 && TotalCash(p.seats) == TotalCash(seats) + 10
  {
    hide After; hide Known; hide TotalNet; hide TotalCash; hide SettleAll; hide Announced;
    var p0 := Opening(stops, seats);
    var p1 := After(p0, INPUTS[0]);
    var p2 := After(p1, INPUTS[1]);
    SellHandled(p0);
    StopHandled(p1);
    assert p2.owners == [Owner(1, 1), Owner(2, 2)];
    BuyHandled(p2, stops);
    AnnouncedSettles(seats, p2.core.tradeSeq);
    RunThree(p0, INPUTS);
  }

  lemma RunThree(p: Pipe, inputs: seq<Input>)
    requires |inputs| == 3
    ensures RunAll(p, inputs) == After(After(After(p, inputs[0]), inputs[1]), inputs[2])
  {
    hide After;
    var a, b := inputs[1..], inputs[2..];
    assert a[1..] == b && b[1..] == [];
    var q := After(After(p, inputs[0]), inputs[1]);
    assert RunAll(q, b) == After(q, inputs[2]);
  }
}
