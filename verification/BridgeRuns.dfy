/** Runs of the bridge at whose ends an order rests that the registry does not show. */
module BridgeRuns {
  import opened Types
  import opened PriceTime
  import opened BookLaws
  import opened EngineSpec
  import opened EngineLaws
  import opened PipelineSpec
  import opened PipelineLaws
  import opened PipelineRuns
  import opened Registry
  import opened CascadeLaws
  import opened BridgeSpec
  import G = GatewaySpec

  /** A bid that no offer at 10 meets. */
  const BID: G.Raw := G.Raw(1, G.ACT_NEW, 0, 2, 0, 0, 9, 0, 1, 0, 0, 0, 0)

  function Sell(qty: nat): G.Raw {
    SELL.(qty := qty)
  }

  function Sent(gw: nat, o: G.Raw): Inbound {
    Inbound(gw, o, 0, true)
  }

  /** After k turns of a stop and a purchase that fires it: three engine ids are gone for every two of the gateway's. */
  ghost predicate Turned(b: Bridge, base: nat, qty: nat, k: nat) {
    && 2 * k <= qty && b.pipe.core.lob == Offering(qty, qty - 2 * k, 2 + 3 * k) && Idle(b.pipe.core.stops)
    && |b.pipe.owners| == 1 + 2 * k && b.reg.base == base && BridgeSpec.Inv(b, base + 1 + 2 * k)
  }

  /** Turns k up to n. */
  function Turns(base: nat, k: nat, n: nat): seq<Inbound>
    requires k <= n
    decreases n - k
  {
    if k == n then [] else [Sent(base + 2 + 2 * k, BUY_STOP), Sent(base + 3 + 2 * k, BUY)] + Turns(base, k + 1, n)
  }

  /** A message that amends nothing keeps the invariant, and the registry keeps its place. */
  lemma NewKeeps(b: Bridge, m: Inbound, last: nat)
    requires BridgeSpec.Inv(b, last) && last < m.gw && m.order.action == G.ACT_NEW
    ensures BridgeSpec.Inv(BridgeSpec.After(b, m), m.gw) && BridgeSpec.After(b, m).reg.base == b.reg.base
  {
    hide BridgeSpec.Inv; hide Handle; hide Staged; hide OnAll;
    AcceptKeeps(b, m.order, m.gw, m.expiry, m.riskOk, last);
    var seen := Staged(b.pipe, m.order, m.expiry, m.riskOk);
    var pipe := Handle(b.pipe, m.order, m.expiry, m.riskOk, seen);
    OnAllMaps(Bind(Register(b.reg, m.order, m.gw), m.order, m.gw, NewId(b.pipe.owners, pipe.owners)), seen);
  }

  lemma AfterPipe(b: Bridge, m: Inbound)
    requires Validates(m.order) && m.riskOk
    ensures var p, p' := b.pipe, BridgeSpec.After(b, m).pipe;
      p'.core == Routed(p, m.order, m.expiry).core && p'.owners == Routed(p, m.order, m.expiry).owners
  {
    hide Routed; hide SettleAll; hide Seen; hide OnAll; hide Validates; hide Known;
  }

  lemma StopTurn(b: Bridge, base: nat, qty: nat, k: nat)
    requires Turned(b, base, qty, k) && |b.pipe.owners| < MAX_OWNERS
    ensures var b1 := BridgeSpec.After(b, Sent(base + 2 + 2 * k, BUY_STOP));
      && b1.pipe.core.lob == Offering(qty, qty - 2 * k, 3 + 3 * k)
      && b1.pipe.core.stops == b.pipe.core.stops[0 := PipelineRuns.Dormant(2 + 3 * k)]
      && |b1.pipe.owners| == 2 + 2 * k && b1.reg.base == base && BridgeSpec.Inv(b1, base + 2 + 2 * k)
  {
    hide BridgeSpec.Inv; hide BridgeSpec.After;
    NewKeeps(b, Sent(base + 2 + 2 * k, BUY_STOP), base + 1 + 2 * k);
    AfterPipe(b, Sent(base + 2 + 2 * k, BUY_STOP));
    assert FirstFree(b.pipe.core.stops) == 0;
  }

  lemma BuyTurn(b: Bridge, idle: seq<StopOrder>, base: nat, qty: nat, k: nat)
    requires 2 * k + 2 < qty && b.pipe.core.lob == Offering(qty, qty - 2 * k, 3 + 3 * k) && Idle(idle)
    requires b.pipe.core.stops == idle[0 := PipelineRuns.Dormant(2 + 3 * k)]
    requires |b.pipe.owners| == 2 + 2 * k < MAX_OWNERS && b.reg.base == base && BridgeSpec.Inv(b, base + 2 + 2 * k)
    ensures Turned(BridgeSpec.After(b, Sent(base + 3 + 2 * k, BUY)), base, qty, k + 1)
  {
    hide BridgeSpec.Inv; hide BridgeSpec.After; hide Submit;
    NewKeeps(b, Sent(base + 3 + 2 * k, BUY), base + 2 + 2 * k);
    AfterPipe(b, Sent(base + 3 + 2 * k, BUY));
    StopFires(b.pipe.core, idle, qty, qty - 2 * k, 3 + 3 * k);
  }

  lemma {:induction false} TurnsRun(b: Bridge, base: nat, qty: nat, k: nat, n: nat)
    requires Turned(b, base, qty, k) && k <= n && 2 * n + 2 < qty && 2 * n + 2 < MAX_OWNERS
    ensures Turned(BridgeSpec.RunAll(b, Turns(base, k, n)), base, qty, n)
    decreases n - k
  {
    hide BridgeSpec.After;
    if k < n {
      var m1, m2 := Sent(base + 2 + 2 * k, BUY_STOP), Sent(base + 3 + 2 * k, BUY);
      var b1 := BridgeSpec.After(b, m1);
      StopTurn(b, base, qty, k);
      BuyTurn(b1, b.pipe.core.stops, base, qty, k);
      hide Turned;
      TurnsRun(BridgeSpec.After(b1, m2), base, qty, k + 1, n);
      RunTwo(b, m1, m2, Turns(base, k + 1, n));
    }
  }

  lemma RunTwo(b: Bridge, m1: Inbound, m2: Inbound, ms: seq<Inbound>)
    ensures BridgeSpec.RunAll(b, [m1, m2] + ms)
         == BridgeSpec.RunAll(BridgeSpec.After(BridgeSpec.After(b, m1), m2), ms)
  {
    hide BridgeSpec.After;
    var all := [m1, m2] + ms;
    assert all[1..] == [m2] + ms && all[1..][1..] == ms;
  }

  lemma RunOne(b: Bridge, m: Inbound, ms: seq<Inbound>)
    ensures BridgeSpec.RunAll(b, [m] + ms) == BridgeSpec.RunAll(BridgeSpec.After(b, m), ms)
  {
    hide BridgeSpec.After;
    assert ([m] + ms)[1..] == ms;
  }

  lemma Started(base: nat, stops: seq<StopOrder>, seats: seq<Seat>, qty: nat)
    requires Idle(stops) && qty > 0
    ensures var b := BridgeSpec.Opening(base, stops, seats);
      BridgeSpec.Inv(b, base) && Turned(BridgeSpec.After(b, Sent(base + 1, Sell(qty))), base, qty, 0)
  {
    hide BridgeSpec.Inv; hide BridgeSpec.After; hide Submit;
    var b := BridgeSpec.Opening(base, stops, seats);
    OpeningAgrees(base, stops, seats);
    NewKeeps(b, Sent(base + 1, Sell(qty)), base);
    AfterPipe(b, Sent(base + 1, Sell(qty)));
    SellRests(b.pipe.core, qty);
  }

  /** 21845 turns use up the engine ids that the registry can map, and 43691 of its 65536 slots. */
  const MANY: nat := 21845

  /**
   The ids run out: after these orders a bid rests under engine id 65537, which the registry cannot map, and its
   own slot shows it as rejected.
   */
  lemma RestsUnmapped(base: nat, stops: seq<StopOrder>, seats: seq<Seat>)
    requires Idle(stops)
    ensures var qty, gw := 2 * MANY + 3, base + 2 * MANY + 2;
      var b := BridgeSpec.RunAll(BridgeSpec.Opening(base, stops, seats), [Sent(base + 1, Sell(qty))] + Turns(base, 0, MANY));
      var b' := BridgeSpec.After(b, Sent(gw, BID));
      && BridgeSpec.Inv(b', gw) && b'.reg.base == base && |b'.reg.orders| == REGISTRY_CAP
      && !Dead(b'.pipe.core.lob, REGISTRY_CAP + 1)
      && b'.reg.orders[gw - base - 1] == NewSlot(BID, gw).(status := SlotStatus.Rejected, touched := true)
  {
    hide BridgeSpec.Inv; hide BridgeSpec.After; hide BridgeSpec.RunAll; hide Submit; hide Turns; hide Dead;
    var qty, gw := 2 * MANY + 3, base + 2 * MANY + 2;
    var b0 := BridgeSpec.Opening(base, stops, seats);
    Started(base, stops, seats, qty);
    var b1 := BridgeSpec.After(b0, Sent(base + 1, Sell(qty)));
    TurnsRun(b1, base, qty, 0, MANY);
    RunOne(b0, Sent(base + 1, Sell(qty)), Turns(base, 0, MANY));
    var b := BridgeSpec.RunAll(b1, Turns(base, 0, MANY));
    LateBid(b, base, qty, gw);
  }

  lemma BidRests(c: Core, qty: nat, left: nat, n: nat)
    requires c.lob == Offering(qty, left, n) && left > 0 && n > 0
    ensures var e := Submit(c, RequestOf(BID)); e.result.id == n && !Dead(e.core.lob, n)
  {
    var r := Rest(n, 9, 1, 1, 0);
    assert Prices(c.lob.sides.bid) == {};
    assert Enter(Bid, c.lob.sides.bid, r) == [r];
    var e := Execute(c, RequestOf(BID));
    assert e.core.lob.sides.bid == [r] && r.id == n;
    assert e.core.lob.sides.bid[0].id == n;
  }

  lemma LateBid(b: Bridge, base: nat, qty: nat, gw: nat)
    requires Turned(b, base, qty, MANY) && qty > 2 * MANY && gw == base + 2 * MANY + 2
    ensures var b' := BridgeSpec.After(b, Sent(gw, BID));
      && BridgeSpec.Inv(b', gw) && b'.reg.base == base && |b'.reg.orders| == REGISTRY_CAP
      && !Dead(b'.pipe.core.lob, REGISTRY_CAP + 1)
      && b'.reg.orders[gw - base - 1] == NewSlot(BID, gw).(status := SlotStatus.Rejected, touched := true)
  {
    hide Submit; hide Dead; hide InStep; hide SettleAll; hide Seen; hide OnAll;
    var m := Sent(gw, BID);
    assert Passes(b.pipe, BID, true);
    InverseSizes(b.reg);
    hide BridgeSpec.Inv;
    NewKeeps(b, m, gw - 1);
    EnteredSlot(b, BID, gw, 0, true, gw - 1);
    EnteredCore(b, BID, gw, 0, true);
    BidRests(b.pipe.core, qty, qty - 2 * MANY, 2 + 3 * MANY);
  }

  // ----- the other two ways out of coverage

  lemma SellOwnRests(c: Core, qty: nat)
    requires c.lob == EMPTY && qty > 0 && WellFormed(c.lob)
    ensures OwnRests(c, RequestOf(Sell(qty))) && !StopBornRests(c, RequestOf(Sell(qty)))
  {
    SellRests(c, qty);
    var r := RequestOf(Sell(qty));
    assert Submit(c, r).core.lob.sides.ask[0].id == 1;
    assert FiresNothing(c, r) by {
      hide CheckStops;
      var none: seq<Rest> := [];
      assert Match(Bid, none, 10, qty).fills == [];
    }
    hide Submit; hide WellFormed; hide FiresNothing;
    UnfiredBearsNone(c, r);
  }

  /** Past the last slot of the registry an order rests that has none. */
  lemma RestsWithoutSlot(base: nat, stops: seq<StopOrder>, seats: seq<Seat>, gw: nat)
    requires Idle(stops) && base + REGISTRY_CAP < gw
    ensures var b := BridgeSpec.Opening(base, stops, seats);
      Covered(b) && !Covered(BridgeSpec.After(b, Sent(gw, SELL)))
  {
    hide Submit; hide WellFormed; hide OwnRests; hide StopBornRests; hide Staged; hide Accept;
    var b := BridgeSpec.Opening(base, stops, seats);
    OpeningAgrees(base, stops, seats);
    SellOwnRests(b.pipe.core, 5);
    AcceptCoversIff(b, SELL, gw, 0, true, base);
  }

  const LIMIT_STOP: G.Raw := G.Raw(1, G.ACT_NEW, 0, 2, 5, 0, 8, 10, 1, 0, 0, 0, 0)

  /** A stop that turns into a bid at 8, below the offer. */
  function DormantBid(id: nat): StopOrder {
    StopOrder(id, Bid, StopLimit, 10, 8, 1, 0, true)
  }

  lemma BornRests(c: Core, idle: seq<StopOrder>)
    requires c.lob == Offering(5, 5, 3) && Idle(idle) && c.stops == idle[0 := DormantBid(2)]
    ensures var e := Submit(c, RequestOf(BUY));
      e.result.id == 3 && e.core.lob.sides.bid == [Rest(4, 8, 1, 1, 0)] && !Dead(e.core.lob, 4)
  {
    hide Execute;
    BuyTrades(c, Limit, 10, 5, 5, 3);
    var c1 := Execute(c, RequestOf(BUY)).core;
    var c2 := Fire(c1, 0);
    BidEnters(c2);
    var c3 := Execute(c2, Request(Limit, Bid, 8, 1)).core;
    assert Submit(c2, Request(Limit, Bid, 8, 1)).core == c3;
    FireCounts(c1.stops, 0);
    assert Quiet(c3);
    QuietScan(c3, 1);
    assert Scan(c1, 10, 0) == c3;
    assert c3.lob.sides.bid[0].id == 4;
  }

  lemma BidEnters(c: Core)
    requires c.lob == Offering(5, 4, 4)
    ensures var e := Execute(c, Request(Limit, Bid, 8, 1));
      && !e.traded && e.core.lob.sides.bid == [Rest(4, 8, 1, 1, 0)]
      && e.core.stops == c.stops && e.core.lastPrice == c.lastPrice
  {
    assert Prices(c.lob.sides.bid) == {};
    assert Enter(Bid, c.lob.sides.bid, Rest(4, 8, 1, 1, 0)) == [Rest(4, 8, 1, 1, 0)];
  }

  /** The third message fires a stop whose order rests, and no slot is for it. */
  lemma RestsStopBorn(base: nat, stops: seq<StopOrder>, seats: seq<Seat>)
    requires Idle(stops)
    ensures var b1 := BridgeSpec.After(BridgeSpec.Opening(base, stops, seats), Sent(base + 1, SELL));
      var b2 := BridgeSpec.After(b1, Sent(base + 2, LIMIT_STOP));
      Covered(b2) && !Covered(BridgeSpec.After(b2, Sent(base + 3, BUY)))
  {
    hide Submit; hide BridgeSpec.Inv; hide OwnRests; hide WellFormed; hide Staged; hide Accept; hide Covered; hide Dead;
    var b := BridgeSpec.Opening(base, stops, seats);
    OpeningAgrees(base, stops, seats);
    WellFormedAt(b, base);
    SellOwnRests(b.pipe.core, 5);
    var b1 := BridgeSpec.After(b, Sent(base + 1, SELL));
    AcceptCoversIff(b, SELL, base + 1, 0, true, base);
    NewKeeps(b, Sent(base + 1, SELL), base);
    AfterPipe(b, Sent(base + 1, SELL));
    SellRests(b.pipe.core, 5);
    var b2 := BridgeSpec.After(b1, Sent(base + 2, LIMIT_STOP));
    AcceptCoversIff(b1, LIMIT_STOP, base + 2, 0, true, base + 1);
    NewKeeps(b1, Sent(base + 2, LIMIT_STOP), base + 1);
    AfterPipe(b1, Sent(base + 2, LIMIT_STOP));
    assert FirstFree(b1.pipe.core.stops) == 0;
    BornRests(b2.pipe.core, b1.pipe.core.stops);
    AcceptCoversIff(b2, BUY, base + 3, 0, true, base + 2);
  }

  lemma WellFormedAt(b: Bridge, last: nat)
    requires BridgeSpec.Inv(b, last)
    ensures WellFormed(b.pipe.core.lob)
  {
  }
}
