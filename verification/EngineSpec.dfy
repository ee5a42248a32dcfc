/**
 The matching engine as a function from state to state: order types, the re-entry of triggered stops and the
 log of order events (engine/matching_engine.c, engine/orders.c).
 */
module EngineSpec {
  import opened Types
  import opened PriceTime
  import opened BookSpec
  import opened MatchLaws

  const MAX_STOPS: nat := 256
  const MARKET_BID_PRICE: int := 0x7FFF_FFFF_FFFF_FFFF
  const MARKET_ASK_PRICE: int := 1

  datatype OrderType = Limit | Market | Ioc | Fok | Stop | StopLimit

  /** A dormant order. An inactive slot may be reused. */
  datatype StopOrder = StopOrder(id: nat, side: Side, kind: OrderType, trigger: int, limit: int, qty: nat,
                                 expiry: nat, active: bool)

  datatype Request = Request(kind: OrderType, side: Side, price: int, qty: nat)

  datatype EventType = OrderAccepted | OrderRejected | OrderFilled | OrderPartial | OrderCancelled | OrderModified
    | StopTriggered

  datatype Event =
    | OrderEvent(etype: EventType, id: nat, side: Side, kind: OrderType, price: int, original: nat, remain: nat,
                 filled: nat)
    | Trade(tradeId: nat, aggressor: nat, resting: nat, aggressorSide: Side, tradePrice: int, tradeQty: nat)

  /** The engine's state, with everything it has ever emitted except top-of-book updates. */
  datatype Core = Core(lob: Lob, stops: seq<StopOrder>, lastPrice: int, tradeSeq: nat, accepted: nat, rejected: nat,
                       log: seq<Event>)

  datatype Result = Result(id: nat, status: Status, fills: nat, filled: nat, remain: nat, avgPrice: int)

  datatype Executed = Executed(core: Core, result: Result, traded: bool)

  function Sentinel(side: Side): int {
    if side == Bid then MARKET_BID_PRICE else MARKET_ASK_PRICE
  }

  /** orders_fok_check, as its header states it: enough resting quantity within the limit. */
  predicate FokFillable(b: Lob, side: Side, price: int, qty: nat) {
    CrossQty(side.Opposite(), b.sides.Get(side.Opposite()), price) >= qty
  }

  /**
   orders_preprocess: whether the order goes to the book. Stop types never do: the trigger price this stage
   checks is always zero.
   */
  predicate Admissible(b: Lob, r: Request) {
    r.qty > 0 &&
    match r.kind
    case Limit => r.price > 0
    case Ioc => r.price > 0
    case Market => r.price == 0
    case Fok => r.price > 0 && FokFillable(b, r.side, r.price, r.qty)
    case Stop => false
    case StopLimit => false
  }

  function EffectivePrice(r: Request): int {
    if r.kind == Market then Sentinel(r.side) else r.price
  }

  function Trades(fills: seq<Fill>, seqNo: nat, id: nat, side: Side): seq<Event> {
    if fills == [] then []
    else [Trade(seqNo + 1, id, fills[0].restingId, side, fills[0].price, fills[0].qty)]
         + Trades(fills[1..], seqNo + 1, id, side)
  }

  function Notional(fills: seq<Fill>): int {
    if fills == [] then 0 else fills[0].price * fills[0].qty + Notional(fills[1..])
  }

  /** Volume-weighted average, rounded half up. */
  function AvgPrice(fills: seq<Fill>): int {
    var q := FilledQty(fills);
    if q > 0 then (Notional(fills) + q / 2) / q else 0
  }

  lemma AddFills(b: Lob, side: Side, price: int, qty: nat, expiry: nat)
    ensures FilledQty(Add(b, side, price, qty, expiry).fills) <= qty
  {
    MatchConserves(side.Opposite(), b.sides.Get(side.Opposite()), price, qty);
  }

  /** The status reported to the caller; a refusal by the book leaves it at its initial value. */
  function Outcome(status: Status, filled: nat, remain: nat): Status {
    if status == Rejected then Accepted
    else if remain == 0 then Filled
    else if filled > 0 then Partial
    else Accepted
  }

  /** The counters and the closing event of a submission. */
  function Concluded(c: Core, r: Request, status: Status, id: nat, filled: nat, remain: nat): Core {
    if status == Rejected then
      c.(rejected := c.rejected + 1,
         log := c.log + [OrderEvent(OrderRejected, id, r.side, r.kind, r.price, r.qty, r.qty, 0)])
    else
      var e :=
        if remain == 0 then OrderEvent(OrderFilled, id, r.side, r.kind, r.price, r.qty, 0, filled)
        else if filled > 0 then OrderEvent(OrderPartial, id, r.side, r.kind, r.price, r.qty, remain, filled)
        else OrderEvent(OrderAccepted, id, r.side, r.kind, r.price, r.qty, r.qty, 0);
      c.(accepted := c.accepted + 1, log := c.log + [e])
  }

  /** Steps 2 to 5 of me_submit_order: the book, the IOC remainder, the events. */
  function Execute(c: Core, r: Request): Executed {
    if !Admissible(c.lob, r) then
      Executed(c.(rejected := c.rejected + 1,
                  log := c.log + [OrderEvent(OrderRejected, 0, r.side, r.kind, r.price, r.qty, r.qty, 0)]),
               Result(0, Rejected, 0, 0, 0, 0), false)
    else
      var a := Add(c.lob, r.side, EffectivePrice(r), r.qty, 0);
      AddFills(c.lob, r.side, EffectivePrice(r), r.qty, 0);
      var filled := FilledQty(a.fills);
      var left := r.qty - filled;
      var drop := r.kind == Ioc && left > 0 && a.id != 0;
      var remain := if drop then 0 else left;
      var lob := if drop then Cancel(a.lob, a.id).0 else a.lob;
      var cancelled := if drop
        then [OrderEvent(OrderCancelled, a.id, r.side, r.kind, r.price, r.qty, 0, filled)] else [];
      var c' := c.(lob := lob,
                   lastPrice := if a.fills == [] then c.lastPrice else a.fills[|a.fills| - 1].price,
                   tradeSeq := c.tradeSeq + |a.fills|,
                   log := c.log + Trades(a.fills, c.tradeSeq, a.id, r.side) + cancelled);
      Executed(Concluded(c', r, a.status, a.id, filled, remain),
               Result(a.id, Outcome(a.status, filled, remain), |a.fills|, filled, remain, AvgPrice(a.fills)),
               a.fills != [])
  }

  // ----- stops

  /** A buy stop fires on a rise to its trigger, a sell stop on a fall to it. */
  predicate Triggered(s: StopOrder, price: int) {
    s.active && if s.side == Bid then price >= s.trigger else price <= s.trigger
  }

  function Active(stops: seq<StopOrder>): nat {
    if stops == [] then 0 else (if stops[0].active then 1 else 0) + Active(stops[1..])
  }

  /** What a fired stop becomes. */
  function Reentry(s: StopOrder): Request {
    if s.kind == Stop then Request(Market, s.side, 0, s.qty) else Request(Limit, s.side, s.limit, s.qty)
  }

  function Fire(c: Core, i: nat): Core
    requires i < |c.stops|
  {
    var s := c.stops[i];
    c.(stops := c.stops[i := s.(active := false)],
       log := c.log + [OrderEvent(StopTriggered, s.id, s.side, s.kind, s.trigger, s.qty, s.qty, 0)])
  }

  /** Slots only ever go from active to inactive. */
  ghost predicate OnlyFired(a: seq<StopOrder>, b: seq<StopOrder>) {
    |a| == |b| && forall i | 0 <= i < |a| :: b[i] == a[i] || (a[i].active && b[i] == a[i].(active := false))
  }

  lemma {:induction false} FireCounts(s: seq<StopOrder>, i: nat)
    requires i < |s| && s[i].active
    ensures Active(s[i := s[i].(active := false)]) == Active(s) - 1
  {
    var t := s[i := s[i].(active := false)];
    if i == 0 {
      assert t[1..] == s[1..];
    } else {
      FireCounts(s[1..], i - 1);
      assert t[1..] == s[1..][i - 1 := s[i].(active := false)];
    }
  }

  /** me_submit_order: execute, then let the trade fire stops. */
  function Submit(c: Core, r: Request): (e: Executed)
    ensures OnlyFired(c.stops, e.core.stops) && Active(e.core.stops) <= Active(c.stops)
    decreases Active(c.stops), 1, 0
  {
    var e := Execute(c, r);
    if e.traded then e.(core := CheckStops(e.core)) else e
  }

  /** check_stops: the scan compares every slot with the price at its start, whatever nested orders trade at. */
  function CheckStops(c: Core): (c': Core)
    ensures OnlyFired(c.stops, c'.stops) && Active(c'.stops) <= Active(c.stops)
    decreases Active(c.stops), 0, |c.stops| + 1
  {
    if c.lastPrice == 0 then c else Scan(c, c.lastPrice, 0)
  }

  function Scan(c: Core, price: int, i: nat): (c': Core)
    requires i <= |c.stops|
    ensures OnlyFired(c.stops, c'.stops) && Active(c'.stops) <= Active(c.stops)
    decreases Active(c.stops), 0, |c.stops| - i
  {
    if i == |c.stops| then c
    else if Triggered(c.stops[i], price) then
      FireCounts(c.stops, i);
      var c1 := Submit(Fire(c, i), Reentry(c.stops[i])).core;
      Scan(c1, price, i + 1)
    else Scan(c, price, i + 1)
  }

  // ----- entering and cancelling stops

  /** The first slot that satisfies a condition, or the number of slots. */
  function FirstFree(stops: seq<StopOrder>): (i: nat)
    ensures i <= |stops| && (i < |stops| ==> !stops[i].active)
    ensures forall j | 0 <= j < i :: stops[j].active
  {
    if stops == [] then 0 else if !stops[0].active then 0 else 1 + FirstFree(stops[1..])
  }

  function FindStop(stops: seq<StopOrder>, id: nat): (i: nat)
    ensures i <= |stops| && (i < |stops| ==> stops[i].active && stops[i].id == id)
    ensures forall j | 0 <= j < i :: !(stops[j].active && stops[j].id == id)
  {
    if stops == [] then 0 else if stops[0].active && stops[0].id == id then 0 else 1 + FindStop(stops[1..], id)
  }

  predicate ValidStop(kind: OrderType, trigger: int, limit: int, qty: nat) {
    qty > 0 && trigger > 0 && (kind == Stop ==> limit == 0) && (kind == StopLimit ==> limit > 0)
  }

  /** me_submit_stop: the order lies dormant in the first free slot, under the book's next id. */
  function SubmitStop(c: Core, kind: OrderType, side: Side, trigger: int, limit: int, qty: nat, expiry: nat)
    : (Core, Result)
  {
    var i := FirstFree(c.stops);
    if !ValidStop(kind, trigger, limit, qty) || i == |c.stops| then
      (c.(rejected := c.rejected + 1,
          log := c.log + [OrderEvent(OrderRejected, 0, side, kind, trigger, qty, qty, 0)]),
       Result(0, Rejected, 0, 0, 0, 0))
    else
      var id := c.lob.nextId;
      (c.(lob := c.lob.(nextId := id + 1),
          stops := c.stops[i := StopOrder(id, side, kind, trigger, limit, qty, expiry, true)],
          accepted := c.accepted + 1,
          log := c.log + [OrderEvent(OrderAccepted, id, side, kind, trigger, qty, qty, 0)]),
       Result(id, Accepted, 0, 0, 0, 0))
  }

  /** me_cancel_stop. */
  function CancelStop(c: Core, id: nat): (Core, bool) {
    var i := FindStop(c.stops, id);
    if i == |c.stops| then (c, false)
    else
      var s := c.stops[i];
      (c.(stops := c.stops[i := s.(active := false)],
          log := c.log + [OrderEvent(OrderCancelled, id, s.side, s.kind, s.trigger, s.qty, 0, 0)]), true)
  }

  // ----- cancelling and amending resting orders

  /** me_cancel_order. The event carries the quantity given up in its last field. */
  function CancelOrder(c: Core, id: nat): (Core, bool) {
    if !Live(c.lob, id) then (c, false)
    else
      var side := SideHolding(c.lob, id);
      var r := Find(c.lob.sides.Get(side), id);
      (c.(lob := Cancel(c.lob, id).0,
          log := c.log + [OrderEvent(OrderCancelled, id, side, Limit, r.price, r.original, 0, r.qty)]), true)
  }

  /** me_modify_order. An order lost at the level limit is reported by the result only. */
  function ModifyOrder(c: Core, id: nat, price: int, qty: nat): (Core, bool) {
    if !Live(c.lob, id) then (c, false)
    else
      var side := SideHolding(c.lob, id);
      var r := Find(c.lob.sides.Get(side), id);
      var (lob, status) := Modify(c.lob, id, price, qty);
      if status != Accepted then (c.(lob := lob), false)
      else
        (c.(lob := lob, log := c.log + [OrderEvent(OrderModified, id, side, Limit, price, r.original, qty, 0)]), true)
  }

  // ----- expiry

  predicate Expired(expiry: nat, now: nat) {
    0 < expiry <= now
  }

  function ExpireStop(s: StopOrder, now: nat): StopOrder {
    if s.active && Expired(s.expiry, now) then s.(active := false) else s
  }

  /** The orders that have not expired, in their places. */
  function Survivors(s: seq<Rest>, now: nat): seq<Rest> {
    if s == [] then []
    else (if Expired(s[0].expiry, now) then [] else [s[0]]) + Survivors(s[1..], now)
  }

  /** The cancellations announced by the sweep over the dormant orders. */
  function StopExpiries(s: seq<StopOrder>, now: nat): seq<Event> {
    if s == [] then []
    else (if s[0].active && Expired(s[0].expiry, now)
          then [OrderEvent(OrderCancelled, s[0].id, s[0].side, s[0].kind, s[0].trigger, s[0].qty, 0, 0)] else [])
         + StopExpiries(s[1..], now)
  }

  /** The cancellation announced for one expired resting order. */
  function OrderExpiry(side: Side, r: Rest): Event {
    OrderEvent(OrderCancelled, r.id, side, Limit, r.price, r.original, 0, 0)
  }

  /** me_expire_orders; `announced` are the cancellations of resting orders, in the order of their pool slots. */
  function Expire(c: Core, now: nat, announced: seq<Event>): Core {
    c.(stops := seq(|c.stops|, i requires 0 <= i < |c.stops| => ExpireStop(c.stops[i], now)),
       lob := Lob(Sided(Survivors(c.lob.sides.bid, now), Survivors(c.lob.sides.ask, now)), c.lob.nextId),
       log := c.log + StopExpiries(c.stops, now) + announced)
  }

  /** The orders whose ids are not in `gone`, in their places. */
  function Kept(s: seq<Rest>, gone: set<nat>): seq<Rest> {
    if s == [] then [] else (if s[0].id in gone then [] else [s[0]]) + Kept(s[1..], gone)
  }
}
