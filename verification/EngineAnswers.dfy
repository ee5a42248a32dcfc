/** What a caller of the engine can count on, stated over the request, the book and the dormant orders alone. */
module EngineAnswers {
  import opened Types
  import opened PriceTime
  import opened BookSpec
  import opened BookLaws
  import opened BookAnswers
  import opened MatchLaws
  import opened EngineSpec
  import opened EngineLaws
  import opened PipelineLaws
  import opened PipelineSpec
  import opened StopLaws

  // ----- submissions

  /** The worst price a request accepts. */
  function WorstPrice(r: Request): int {
    if r.kind != Market then r.price else if r.side == Bid then 0x7FFF_FFFF_FFFF_FFFF else 1
  }

  /** What the other side offers within that price. */
  function Within(b: Lob, r: Request): nat {
    CrossQty(r.side.Opposite(), b.sides.Get(r.side.Opposite()), WorstPrice(r))
  }

  /** Which requests never reach the book. */
  predicate Refused(b: Lob, r: Request) {
    || r.qty == 0 || r.kind == Stop || r.kind == StopLimit
    || (r.kind == Market && r.price != 0) || (r.kind != Market && r.price <= 0)
    || (r.kind == Fok && Within(b, r) < r.qty)
    || |b.sides.bid| + |b.sides.ask| >= 4096
  }

  function Least(a: nat, b: nat): nat {
    if a <= b then a else b
  }

  /**
   The whole answer to a submission. A request that is not refused fills as much as the other side offers within
   its price. What is left rests, except that of an IOC order.
   */
  ghost predicate Answers(b: Lob, r: Request, e: Executed) {
    if Refused(b, r) then
      e.result.id == 0 && e.result.filled == 0 && e.result.fills == 0 && e.result.avgPrice == 0 && !e.traded
      && e.core.lob == b
    else
      var filled := Least(r.qty, Within(b, r));
      var left := if r.kind == Ioc then 0 else r.qty - filled;
      && e.result.id == b.nextId && e.result.filled == filled && e.result.remain == left
      && e.traded == (filled > 0)
      && e.result.status == (if filled < r.qty && Full(b.sides.Get(r.side), WorstPrice(r)) then Accepted
                             else if left == 0 then Filled else if filled > 0 then Partial else Accepted)
  }

  lemma AdmissibleIff(b: Lob, r: Request)
    ensures Refused(b, r) <==> !Admissible(b, r) || Count(b) >= MAX_ORDERS
    ensures Admissible(b, r) ==> EffectivePrice(r) == WorstPrice(r) > 0
  {
    hide CrossQty;
  }

  lemma ExecuteAnswers(c: Core, r: Request)
    requires WellFormed(c.lob)
    ensures Answers(c.lob, r, Execute(c, r))
  {
    AdmissibleIff(c.lob, r);
    if Admissible(c.lob, r) {
      var p := WorstPrice(r);
      AddFills(c.lob, r.side, p, r.qty, 0);
      var k := AddAnswers(c.lob, r.side, p, r.qty, 0);
      var a := Add(c.lob, r.side, p, r.qty, 0);
      NoFillQty();
      FillsWorth(c, r);
      PositiveId(c.lob);
      hide WellFormed; hide Admissible; hide Add; hide Cancel; hide Trades; hide CrossQty; hide FilledQty; hide Full;
      hide StandsAt; hide TakesFront; hide AvgPrice;
      if Count(c.lob) < MAX_ORDERS {
        AnsweredNumbers(c.lob, r.side, p, r.qty, a, k);
      }
      NoAverage();
    }
  }

  lemma PositiveId(b: Lob)
    requires WellFormed(b)
    ensures b.nextId > 0
  {
  }

  lemma NoAverage()
    ensures AvgPrice([]) == 0
  {
  }

  lemma FillsWorth(c: Core, r: Request)
    requires WellFormed(c.lob)
    ensures Entry(c, r).fills != [] <==> FilledQty(Entry(c, r).fills) > 0
  {
    MatchConserves(r.side.Opposite(), c.lob.sides.Get(r.side.Opposite()), EffectivePrice(r), r.qty);
    PositiveSide(Bid, c.lob.sides.bid, c.lob.nextId);
    PositiveSide(Ask, c.lob.sides.ask, c.lob.nextId);
    FillPositive(r.side.Opposite(), c.lob.sides.Get(r.side.Opposite()), EffectivePrice(r), r.qty);
  }

  lemma FillPositive(opp: Side, s: seq<Rest>, limit: int, q: nat)
    requires forall i | 0 <= i < |s| :: s[i].qty > 0
    ensures var f := Match(opp, s, limit, q).fills; f != [] <==> FilledQty(f) > 0
  {
  }

  /** The numbers of an addition, without its places. */
  lemma AnsweredNumbers(b: Lob, side: Side, price: int, qty: nat, a: Added, k: nat)
    requires Answered(b, side, price, qty, 0, a, k)
    ensures a.id == b.nextId && FilledQty(a.fills) == Least(qty, CrossQty(side.Opposite(), b.sides.Get(side.Opposite()), price))
    ensures a.status == if FilledQty(a.fills) == qty then Filled else if Full(b.sides.Get(side), price) then Rejected
                        else if a.fills == [] then Accepted else Partial
  {
  }

  /** The answer stands whatever stops the submission then fires. */
  lemma SubmitAnswers(c: Core, r: Request)
    requires WellFormed(c.lob)
    ensures var e := Submit(c, r);
      && e.result == Execute(c, r).result && e.traded == Execute(c, r).traded
      && Answers(c.lob, r, Execute(c, r))
      && (Refused(c.lob, r) ==>
            e.core == c.(rejected := c.rejected + 1,
                         log := c.log + [OrderEvent(OrderRejected, 0, r.side, r.kind, r.price, r.qty, r.qty, 0)]))
  {
    ExecuteAnswers(c, r);
    if Refused(c.lob, r) {
      RefusedLeaves(c, r);
    }
  }

  lemma RefusedLeaves(c: Core, r: Request)
    requires WellFormed(c.lob) && Refused(c.lob, r)
    ensures Execute(c, r).core == c.(rejected := c.rejected + 1,
              log := c.log + [OrderEvent(OrderRejected, 0, r.side, r.kind, r.price, r.qty, r.qty, 0)])
    ensures !Execute(c, r).traded
  {
    AdmissibleIff(c.lob, r);
    if Admissible(c.lob, r) {
      assert Entry(c, r) == Added(c.lob, Rejected, 0, []);
      NoFillQty();
      assert c.log + [] + [] == c.log;
      hide Admissible; hide CrossQty;
    }
  }

  /** What a submission that reaches the book announces after its trades. */
  function Reports(id: nat, r: Request, filled: nat, refused: bool): seq<Event>
    requires filled <= r.qty
  {
    var left := if r.kind == Ioc then 0 else r.qty - filled;
    (if r.kind == Ioc && filled < r.qty
     then [OrderEvent(OrderCancelled, id, r.side, r.kind, r.price, r.qty, 0, filled)] else [])
    + [if refused then OrderEvent(OrderRejected, id, r.side, r.kind, r.price, r.qty, r.qty, 0)
       else if left == 0 then OrderEvent(OrderFilled, id, r.side, r.kind, r.price, r.qty, 0, filled)
       else if filled > 0 then OrderEvent(OrderPartial, id, r.side, r.kind, r.price, r.qty, left, filled)
       else OrderEvent(OrderAccepted, id, r.side, r.kind, r.price, r.qty, r.qty, 0)]
  }

  /** A submission announces its trades, numbered on from the last, and then what became of it. */
  lemma ExecuteReports(c: Core, r: Request) returns (trades: seq<Event>)
    requires WellFormed(c.lob) && !Refused(c.lob, r)
    ensures var filled := Least(r.qty, Within(c.lob, r));
      Execute(c, r).core.log == c.log + (trades
        + Reports(c.lob.nextId, r, filled, filled < r.qty && Full(c.lob.sides.Get(r.side), WorstPrice(r))))
    ensures forall k | 0 <= k < |trades| ::
      && trades[k].Trade? && trades[k].tradeId == c.tradeSeq + k + 1 && trades[k].aggressor == c.lob.nextId
      && trades[k].aggressorSide == r.side && k < |c.lob.sides.Get(r.side.Opposite())|
      && trades[k].resting == c.lob.sides.Get(r.side.Opposite())[k].id
      && trades[k].tradePrice == c.lob.sides.Get(r.side.Opposite())[k].price
  {
    AdmissibleIff(c.lob, r);
    ExecuteLog(c, r);
    var p := WorstPrice(r);
    var k := AddAnswers(c.lob, r.side, p, r.qty, 0);
    var a := Add(c.lob, r.side, p, r.qty, 0);
    assert a == Entry(c, r);
    PositiveId(c.lob);
    hide WellFormed; hide Admissible; hide Execute; hide Add; hide Trades; hide CrossQty; hide FilledQty; hide Full;
    hide StandsAt; hide Entry;
    AnsweredNumbers(c.lob, r.side, p, r.qty, a, k);
    FillsWorth(c, r);
    TradesAre(a.fills, c.tradeSeq, a.id, r.side);
    trades := Trades(a.fills, c.tradeSeq, a.id, r.side);
    TailIs(r, a, FilledQty(a.fills), FilledQty(a.fills) < r.qty && Full(c.lob.sides.Get(r.side), p));
  }

  lemma TailIs(r: Request, a: Added, filled: nat, refused: bool)
    requires filled == FilledQty(a.fills) <= r.qty && a.id != 0
    requires refused <==> a.status == Rejected
    ensures Tail(r, a) == Reports(a.id, r, filled, refused)
  {
  }

  /** A market order reaches everything on the other side that a 64-bit price can name. */
  lemma {:induction false} MarketReaches(s: seq<Rest>)
    ensures (forall i | 0 <= i < |s| :: s[i].price <= 0x7FFF_FFFF_FFFF_FFFF) ==> CrossQty(Ask, s, 0x7FFF_FFFF_FFFF_FFFF) == Qty(s)
    ensures (forall i | 0 <= i < |s| :: s[i].price >= 1) ==> CrossQty(Bid, s, 1) == Qty(s)
  {
    if s != [] {
      MarketReaches(s[1..]);
    }
  }

  // ----- cancellations and amendments

  /** What a cancellation announces: the order's price, what it first asked for, and what was still open of it. */
  lemma CancelOrderAnswers(c: Core, id: nat) returns (side: Side, j: nat)
    requires WellFormed(c.lob)
    ensures var (c', ok) := CancelOrder(c, id);
      && ok == RestsAt(c.lob, side, j, id)
      && c' == if !ok then c
               else var r := c.lob.sides.Get(side)[j];
                 c.(lob := Cancel(c.lob, id).0,
                    log := c.log + [OrderEvent(OrderCancelled, id, side, Limit, r.price, r.original, 0, r.qty)])
  {
    side, j := LiveRests(c.lob, id);
    hide WellFormed; hide Cancel; hide Live; hide Find; hide HasId; hide Without;
  }

  /** What an amendment announces: the new price and quantity; one that was not accepted announces nothing. */
  lemma ModifyOrderAnswers(c: Core, id: nat, price: int, qty: nat) returns (side: Side, j: nat)
    requires WellFormed(c.lob)
    ensures var (c', ok) := ModifyOrder(c, id, price, qty);
      var (b', status) := Modify(c.lob, id, price, qty);
      && ok == (status == Accepted) && (ok ==> RestsAt(c.lob, side, j, id))
      && c' == c.(lob := b',
                  log := if !ok then c.log else
                    c.log + [OrderEvent(OrderModified, id, side, Limit, price, c.lob.sides.Get(side)[j].original, qty, 0)])
  {
    side, j := LiveRests(c.lob, id);
    NotLiveUnmoved(c.lob, id, price, qty);
    hide WellFormed; hide Modify; hide Live; hide Find; hide HasId; hide Without;
  }

  lemma NotLiveUnmoved(b: Lob, id: nat, price: int, qty: nat)
    requires WellFormed(b)
    ensures !Live(b, id) ==> Modify(b, id, price, qty).0 == b && Modify(b, id, price, qty).1 != Accepted
  {
  }

  // ----- stops

  /** An active slot holds this record. */
  ghost predicate Holds(stops: seq<StopOrder>, s: StopOrder) {
    s.active && exists i :: 0 <= i < |stops| && stops[i] == s
  }

  /** An order waits under this id. */
  ghost predicate Waits(stops: seq<StopOrder>, id: nat) {
    exists i :: 0 <= i < |stops| && stops[i].active && stops[i].id == id
  }

  /** Orders wait under ids of their own, which were issued and name nothing on the book. */
  ghost predicate WaitApart(c: Core) {
    && (forall i, j | 0 <= i < j < |c.stops| && c.stops[i].active && c.stops[j].active :: c.stops[i].id != c.stops[j].id)
    && (forall i | 0 <= i < |c.stops| && c.stops[i].active :: c.stops[i].id < c.lob.nextId && Dead(c.lob, c.stops[i].id))
  }

  /** The whole answer to the entry of a stop. */
  lemma StopAnswers(c: Core, kind: OrderType, side: Side, trigger: int, limit: int, qty: nat, expiry: nat) returns (i: nat)
    ensures var (c', res) := SubmitStop(c, kind, side, trigger, limit, qty, expiry);
      var invalid := qty == 0 || trigger <= 0 || (kind == Stop && limit != 0) || (kind == StopLimit && limit <= 0);
      if invalid || forall j | 0 <= j < |c.stops| :: c.stops[j].active then
        && res.id == 0 && res.status == Rejected
        && c' == c.(rejected := c.rejected + 1,
                    log := c.log + [OrderEvent(OrderRejected, 0, side, kind, trigger, qty, qty, 0)])
      else
        && i < |c.stops| && !c.stops[i].active && (forall j | 0 <= j < i :: c.stops[j].active)
        && res.id == c.lob.nextId && res.status == Accepted
        && c' == c.(lob := c.lob.(nextId := c.lob.nextId + 1), accepted := c.accepted + 1,
                    stops := c.stops[i := StopOrder(c.lob.nextId, side, kind, trigger, limit, qty, expiry, true)],
                    log := c.log + [OrderEvent(OrderAccepted, c.lob.nextId, side, kind, trigger, qty, qty, 0)])
  {
    i := FirstFree(c.stops);
  }

  /** No order waits under a cancelled id, the others wait as before, and the book is as it was. */
  lemma CancelStopAnswers(c: Core, id: nat)
    requires WaitApart(c)
    ensures var (c', ok) := CancelStop(c, id);
      && ok == Waits(c.stops, id) && !Waits(c'.stops, id) && c'.lob == c.lob && |c'.stops| == |c.stops|
      && (!ok ==> c' == c)
      && forall s: StopOrder :: Holds(c'.stops, s) <==> Holds(c.stops, s) && s.id != id
  {
    hide Dead;
    var c' := CancelStop(c, id).0;
    var i := FindStop(c.stops, id);
    if i < |c.stops| {
      forall s: StopOrder
        ensures Holds(c'.stops, s) <==> Holds(c.stops, s) && s.id != id
      {
        if Holds(c'.stops, s) {
          var k :| 0 <= k < |c'.stops| && c'.stops[k] == s;
          assert c.stops[k] == s && k != i;
        }
        if Holds(c.stops, s) && s.id != id {
          var k :| 0 <= k < |c.stops| && c.stops[k] == s;
          assert c'.stops[k] == s;
        }
      }
    }
  }

  /** A cancelled id, of a resting or of a dormant order, neither rests nor waits afterwards. */
  lemma MatchCancelAnswers(c: Core, id: nat)
    requires WellFormed(c.lob) && WaitApart(c)
    ensures var c' := MatchCancel(c, id); Dead(c'.lob, id) && !Waits(c'.stops, id)
  {
    CancelledIsDead(c.lob, id);
    CancelStopAnswers(c, id);
    LiveIsNotDead(c.lob, id);
    hide WellFormed; hide Cancel; hide SideHolding; hide Find; hide FindStop; hide Dead; hide Live; hide Holds;
  }

  lemma LiveIsNotDead(b: Lob, id: nat)
    ensures Live(b, id) <==> !Dead(b, id)
  {
    if !Live(b, id) {
      assert forall i | 0 <= i < |b.sides.bid| :: b.sides.bid[i].id != id;
      assert forall i | 0 <= i < |b.sides.ask| :: b.sides.ask[i].id != id;
    }
  }

  // ----- dormant orders stay as they were entered

  /** Records are never changed, and new ones come under new ids. */
  ghost predicate OldRecords(c: Core, c': Core) {
    && c.lob.nextId <= c'.lob.nextId
    && forall s: StopOrder | Holds(c'.stops, s) && s.id < c.lob.nextId :: Holds(c.stops, s)
  }

  lemma FiredRecords(a: seq<StopOrder>, b: seq<StopOrder>, s: StopOrder)
    requires OnlyFired(a, b) && Holds(b, s)
    ensures Holds(a, s)
  {
    var i :| 0 <= i < |b| && b[i] == s;
    assert a[i] == s;
  }

  lemma ExpiredRecords(c: Core, now: nat, announced: seq<Event>, s: StopOrder)
    ensures Holds(Expire(c, now, announced).stops, s) <==> Holds(c.stops, s) && !(0 < s.expiry <= now)
  {
    hide Survivors; hide StopExpiries;
    var stops' := Expire(c, now, announced).stops;
    assert forall i | 0 <= i < |c.stops| :: stops'[i] == ExpireStop(c.stops[i], now);
    if Holds(c.stops, s) {
      var i :| 0 <= i < |c.stops| && c.stops[i] == s;
      assert !(0 < s.expiry <= now) ==> stops'[i] == s;
    }
  }

  lemma PerformRecords(c: Core, a: Call)
    requires WellFormed(c.lob) && WaitApart(c)
    ensures OldRecords(c, Perform(c, a))
  {
    hide WellFormed; hide Submit; hide CancelStop; hide SubmitStop; hide Expire; hide Cancel; hide Modify; hide Live;
    hide SideHolding; hide Find; hide Holds; hide WaitApart;
    var c' := Perform(c, a);
    match a {
      case SubmitCall(r) =>
        SubmitNext(c, r);
        forall s: StopOrder | Holds(c'.stops, s)
          ensures Holds(c.stops, s)
        {
          FiredRecords(c.stops, c'.stops, s);
        }
      case StopCall(kind, side, trigger, limit, qty, expiry) =>
        var i := StopAnswers(c, kind, side, trigger, limit, qty, expiry);
        forall s: StopOrder | Holds(c'.stops, s) && s.id < c.lob.nextId
          ensures Holds(c.stops, s)
        {
          EnteredRecords(c.stops, c'.stops, i, c.lob.nextId, s);
        }
      case CancelCall(id) => CancelNext(c.lob, id);
      case CancelStopCall(id) => CancelStopAnswers(c, id);
      case ModifyCall(id, price, qty) => ModifyNewcomers(c.lob, id, price, qty);
      case ExpireCall(now, announced) =>
        ExpireNext(c, now, announced);
        forall s: StopOrder | Holds(c'.stops, s)
          ensures Holds(c.stops, s)
        {
          ExpiredRecords(c, now, announced, s);
        }
    }
  }

  lemma ExpireNext(c: Core, now: nat, announced: seq<Event>)
    ensures Expire(c, now, announced).lob.nextId == c.lob.nextId
  {
  }

  lemma EnteredRecords(a: seq<StopOrder>, b: seq<StopOrder>, i: nat, id: nat, s: StopOrder)
    requires Holds(b, s) && s.id != id
    requires b == a || (i < |a| && |b| == |a| && b == a[i := b[i]] && b[i].id == id)
    ensures Holds(a, s)
  {
    var k :| 0 <= k < |b| && b[k] == s;
    assert a[k] == s;
  }

  // ----- orders keep waiting apart

  lemma ApartFired(c: Core, c': Core)
    requires WaitApart(c) && |c'.stops| == |c.stops| && c.lob.nextId <= c'.lob.nextId
    requires forall i | 0 <= i < |c.stops| :: c'.stops[i] == c.stops[i] || !c'.stops[i].active
    requires forall i | 0 <= i < |c.stops| && c.stops[i].active :: Dead(c'.lob, c.stops[i].id)
    ensures WaitApart(c')
  {
    hide Dead;
  }

  lemma StopApart(c: Core, a: Call)
    requires WellFormed(c.lob) && WaitApart(c) && a.StopCall?
    ensures WaitApart(Perform(c, a))
  {
    UnissuedDead(c.lob, c.lob.nextId);
    var i := StopAnswers(c, a.kind, a.side, a.trigger, a.limit, a.qty, a.expiry);
    var c' := Perform(c, a);
    hide WellFormed; hide SubmitStop;
    assert forall x: nat :: Dead(c'.lob, x) <==> Dead(c.lob, x) by {
      assert c'.lob.sides == c.lob.sides;
    }
    hide Dead; hide Perform;
    if c'.stops != c.stops {
      assert forall j | 0 <= j < |c.stops| && j != i :: c'.stops[j] == c.stops[j];
    }
  }

  lemma ExpireDead(c: Core, now: nat, announced: seq<Event>, id: nat)
    requires Dead(c.lob, id)
    ensures Dead(Expire(c, now, announced).lob, id)
  {
    SurvivorsIds(c.lob.sides.bid, now, id);
    SurvivorsIds(c.lob.sides.ask, now, id);
    hide Survivors; hide StopExpiries; hide ExpireStop;
  }

  lemma {:induction false} SurvivorsIds(s: seq<Rest>, now: nat, id: nat)
    requires NoId(s, id)
    ensures NoId(Survivors(s, now), id)
  {
    if s != [] {
      SurvivorsIds(s[1..], now, id);
    }
  }

  lemma PerformApart(c: Core, a: Call)
    requires WellFormed(c.lob) && WaitApart(c)
    ensures WaitApart(Perform(c, a))
  {
    if a.StopCall? {
      StopApart(c, a);
    } else {
      var c' := Perform(c, a);
      PerformRecords(c, a);
      ZeroIsDead(c.lob);
      forall i | 0 <= i < |c.stops| && c.stops[i].active
        ensures Dead(c'.lob, c.stops[i].id)
      {
        PerformDead(c, a, c.stops[i].id);
      }
      PerformStops(c, a);
      hide WellFormed; hide Perform; hide Dead; hide Holds;
      ApartFired(c, c');
    }
  }

  /** Apart from entry, slots at most become inactive. */
  lemma PerformStops(c: Core, a: Call)
    requires !a.StopCall?
    ensures var c' := Perform(c, a);
      |c'.stops| == |c.stops| && forall i | 0 <= i < |c.stops| :: c'.stops[i] == c.stops[i] || !c'.stops[i].active
  {
    hide Cancel; hide Modify; hide Live; hide SideHolding; hide Find; hide FindStop; hide Survivors; hide StopExpiries;
    hide Submit;
  }

  lemma PerformDead(c: Core, a: Call, id: nat)
    requires WellFormed(c.lob) && id < c.lob.nextId && Dead(c.lob, id) && !a.StopCall?
    ensures Dead(Perform(c, a).lob, id)
  {
    ZeroDead(c, a);
    if id != 0 {
      hide WellFormed; hide Submit; hide Dead; hide Expire; hide Cancel; hide Modify; hide Live; hide SideHolding;
      hide Find; hide FindStop;
      match a {
        case SubmitCall(r) => SubmitDead(c, r, id);
        case CancelCall(x) => CancelNewcomers(c.lob, x);
        case CancelStopCall(_) =>
        case ModifyCall(x, price, qty) => ModifyNewcomers(c.lob, x, price, qty);
        case ExpireCall(now, announced) => ExpireDead(c, now, announced, id);
      }
    }
  }

  lemma ZeroDead(c: Core, a: Call)
    requires WellFormed(c.lob)
    ensures Dead(Perform(c, a).lob, 0)
  {
    PerformFormed(c, a);
    ZeroIsDead(Perform(c, a).lob);
  }

  /** Over every run: a dormant order is the one that was entered under its id. */
  lemma {:induction false} RunRecords(c: Core, calls: seq<Call>)
    requires WellFormed(c.lob) && WaitApart(c)
    ensures var c' := RunCalls(c, calls); WellFormed(c'.lob) && WaitApart(c') && OldRecords(c, c')
    decreases |calls|
  {
    if calls != [] {
      PerformFormed(c, calls[0]);
      PerformApart(c, calls[0]);
      PerformRecords(c, calls[0]);
      hide WellFormed; hide WaitApart; hide Perform; hide Holds;
      RunRecords(Perform(c, calls[0]), calls[1..]);
    }
  }

  // ----- expiry

  /** A sweep: what has expired goes, what has not stays, and orders good till cancelled never go. */
  lemma ExpireAnswers(c: Core, now: nat, announced: seq<Event>)
    ensures var c' := Expire(c, now, announced);
      && |c'.stops| == |c.stops|
      && (forall i | 0 <= i < |c.stops| ::
            c'.stops[i] == c.stops[i].(active := c.stops[i].active && (c.stops[i].expiry == 0 || now < c.stops[i].expiry)))
      && (forall r: Rest :: r in c'.lob.sides.bid <==> r in c.lob.sides.bid && (r.expiry == 0 || now < r.expiry))
      && (forall r: Rest :: r in c'.lob.sides.ask <==> r in c.lob.sides.ask && (r.expiry == 0 || now < r.expiry))
  {
    forall r: Rest
      ensures r in Survivors(c.lob.sides.bid, now) <==> r in c.lob.sides.bid && (r.expiry == 0 || now < r.expiry)
      ensures r in Survivors(c.lob.sides.ask, now) <==> r in c.lob.sides.ask && (r.expiry == 0 || now < r.expiry)
    {
      SurvivorsAre(c.lob.sides.bid, now, r);
      SurvivorsAre(c.lob.sides.ask, now, r);
    }
    hide Survivors; hide StopExpiries;
  }

  lemma {:induction false} SurvivorsAre(s: seq<Rest>, now: nat, r: Rest)
    ensures r in Survivors(s, now) <==> r in s && (r.expiry == 0 || now < r.expiry)
  {
    if s != [] {
      SurvivorsAre(s[1..], now, r);
      assert r in s <==> r == s[0] || r in s[1..];
    }
  }

  /**
   A stop entered at now with a time to live, if it still waits after any run of calls, is taken away by the sweep
   at t exactly when the time is over; one without is never taken away.
   */
  lemma ExpiresIff(c: Core, kind: OrderType, side: Side, trigger: int, limit: int, qty: nat, ttl: nat, now: nat,
                   calls: seq<Call>, t: nat, announced: seq<Event>)
    requires WellFormed(c.lob) && WaitApart(c)
    requires SubmitStop(c, kind, side, trigger, limit, qty, if ttl > 0 then now + ttl else 0).1.id != 0
    requires var c1 := SubmitStop(c, kind, side, trigger, limit, qty, if ttl > 0 then now + ttl else 0).0;
      Waits(RunCalls(c1, calls).stops, c.lob.nextId)
    ensures var c1 := SubmitStop(c, kind, side, trigger, limit, qty, if ttl > 0 then now + ttl else 0).0;
      Waits(Expire(RunCalls(c1, calls), t, announced).stops, c.lob.nextId) <==> ttl == 0 || t < now + ttl
  {
    var expiry := if ttl > 0 then now + ttl else 0;
    var entry := StopCall(kind, side, trigger, limit, qty, expiry);
    var c1 := Perform(c, entry);
    PerformFormed(c, entry);
    PerformApart(c, entry);
    var i := StopAnswers(c, kind, side, trigger, limit, qty, expiry);
    var s := StopOrder(c.lob.nextId, side, kind, trigger, limit, qty, expiry, true);
    hide WellFormed; hide SubmitStop; hide Expire;
    assert c1.stops[i] == s;
    OneRecord(c1, i, s);
    RunRecords(c1, calls);
    var c2 := RunCalls(c1, calls);
    hide WaitApart; hide RunCalls; hide Perform;
    OnlyRecord(c1, c2, s);
    ExpiredRecords(c2, t, announced, s);
    SweptRecord(c2, t, announced, s);
  }

  lemma OneRecord(c: Core, i: nat, s: StopOrder)
    requires WaitApart(c) && i < |c.stops| && c.stops[i] == s && s.active
    ensures forall s': StopOrder | Holds(c.stops, s') && s'.id == s.id :: s' == s
    ensures s.id < c.lob.nextId
  {
  }

  lemma OnlyRecord(c1: Core, c2: Core, s: StopOrder)
    requires OldRecords(c1, c2) && s.id < c1.lob.nextId && Waits(c2.stops, s.id)
    requires forall s': StopOrder | Holds(c1.stops, s') && s'.id == s.id :: s' == s
    ensures Holds(c2.stops, s)
    ensures forall s': StopOrder | Holds(c2.stops, s') && s'.id == s.id :: s' == s
  {
    var k :| 0 <= k < |c2.stops| && c2.stops[k].active && c2.stops[k].id == s.id;
    assert Holds(c2.stops, c2.stops[k]);
  }

  lemma SweptRecord(c: Core, t: nat, announced: seq<Event>, s: StopOrder)
    requires forall s': StopOrder | Holds(c.stops, s') && s'.id == s.id :: s' == s
    requires Holds(Expire(c, t, announced).stops, s) <==> Holds(c.stops, s) && !(0 < s.expiry <= t)
    requires Holds(c.stops, s)
    ensures Waits(Expire(c, t, announced).stops, s.id) <==> !(0 < s.expiry <= t)
  {
    hide Expire;
    var stops' := Expire(c, t, announced).stops;
    if Waits(stops', s.id) {
      var k :| 0 <= k < |stops'| && stops'[k].active && stops'[k].id == s.id;
      assert Holds(stops', stops'[k]);
      ExpiredRecords(c, t, announced, stops'[k]);
    }
    if Holds(stops', s) {
      var k :| 0 <= k < |stops'| && stops'[k] == s;
    }
  }
}
