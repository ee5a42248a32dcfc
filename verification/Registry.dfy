/**
 The bridge's second copy of order state (bridge/bridge.c): slots under gateway ids, advanced by the event
 stream of the engine, which speaks its own ids.
 */
module Registry {
  import opened Types
  import opened EngineSpec

  const REGISTRY_CAP: nat := 65536

  datatype SlotStatus = Open | Partial | Filled | Cancelled | Rejected

  /** bridge_order_slot_t without its timestamps. Order id 0 marks an empty slot, engine id 0 an unmapped one. */
  datatype Slot = Slot(orderId: nat, meId: nat, client: nat, account: nat, kind: OrderType, side: Side, price: int,
                       trigger: int, original: nat, remain: nat, filled: nat, status: SlotStatus, touched: bool)

  /** What the bridge publishes. */
  datatype Message =
    | OrderMsg(orderId: nat, account: nat, side: Side, kind: OrderType, price: int, original: nat, remain: nat,
               filled: nat, status: SlotStatus)
    | TradeMsg(tradeId: nat, aggressor: nat, resting: nat, aggressorSide: Side, tradePrice: int, tradeQty: nat,
               aggressorAccount: nat, restingAccount: nat)

  /** The registry and, in order, everything it has published. */
  datatype Reg = Reg(base: nat, orders: seq<Slot>, meToGw: seq<nat>, published: seq<Message>)

  /** slot_for: the index of a live slot, |orders| when there is none. */
  function SlotFor(r: Reg, gw: nat): (i: nat)
    ensures i <= |r.orders| && (i < |r.orders| ==> r.orders[i].orderId == gw && gw == r.base + i + 1)
  {
    if gw == 0 || gw <= r.base then |r.orders|
    else
      var i := gw - r.base - 1;
      if i >= |r.orders| || r.orders[i].orderId != gw then |r.orders| else i
  }

  /** gw_from_me. */
  function GwFromMe(r: Reg, me: nat): nat {
    if me == 0 || me > |r.meToGw| then 0 else r.meToGw[me - 1]
  }

  /** slot_apply_fill. */
  function ApplyFill(s: Slot, qty: nat): Slot {
    var remain := if s.remain >= qty then s.remain - qty else 0;
    s.(filled := s.filled + qty, remain := remain, status := if remain == 0 then Filled else Partial, touched := true)
  }

  predicate Terminal(s: Slot) {
    s.touched && s.status in {Cancelled, Rejected}
  }

  function StatusOf(e: Event): SlotStatus
    requires e.OrderEvent?
  {
    match e.etype
    case OrderCancelled => Cancelled
    case OrderRejected => Rejected
    case OrderFilled => Filled
    case OrderPartial => Partial
    case _ => if e.remain == 0 then Filled else Open
  }

  /** A slot after an order event about it, unless it is terminal. */
  function ApplyEvent(s: Slot, e: Event): Slot
    requires e.OrderEvent?
  {
    var s1 :=
      if e.etype == OrderCancelled then s.(remain := 0)
      else if e.etype == OrderModified then s.(price := e.price, remain := e.remain)
      else s.(remain := e.remain, filled := if e.filled > s.filled then e.filled else s.filled);
    var st := StatusOf(e);
    s1.(touched := true, status := if st == Open && s1.filled > 0 then Partial else st)
  }

  function Snapshot(s: Slot): Message {
    OrderMsg(s.orderId, s.account, s.side, s.kind, s.price, s.original, s.remain, s.filled, s.status)
  }

  function FillAt(r: Reg, i: nat, qty: nat): Reg {
    if i < |r.orders| then r.(orders := r.orders[i := ApplyFill(r.orders[i], qty)]) else r
  }

  function Publish(r: Reg, m: Message): Reg {
    r.(published := r.published + [m])
  }

  function AccountAt(r: Reg, i: nat): nat {
    if i < |r.orders| then r.orders[i].account else 0
  }

  /** A trade: both slots advance, and the resting side is shown again. */
  function OnTrade(r: Reg, e: Event): Reg
    requires e.Trade?
  {
    var aggGw, restGw := GwFromMe(r, e.aggressor), GwFromMe(r, e.resting);
    var agg, rest := SlotFor(r, aggGw), SlotFor(r, restGw);
    var r2 := FillAt(FillAt(r, agg, e.tradeQty), rest, e.tradeQty);
    var r3 := Publish(r2, TradeMsg(e.tradeId, aggGw, restGw, e.aggressorSide, e.tradePrice, e.tradeQty,
                                   AccountAt(r2, agg), AccountAt(r2, rest)));
    if rest < |r3.orders| then Publish(r3, Snapshot(r3.orders[rest])) else r3
  }

  function OnOrder(r: Reg, e: Event): Reg
    requires e.OrderEvent?
  {
    var gw := GwFromMe(r, e.id);
    var i := SlotFor(r, gw);
    if gw == 0 || (i < |r.orders| && Terminal(r.orders[i])) then r
    else if i < |r.orders| then
      var s := ApplyEvent(r.orders[i], e);
      Publish(r.(orders := r.orders[i := s]), Snapshot(s))
    else Publish(r, OrderMsg(gw, 0, e.side, e.kind, e.price, e.original, e.remain, e.filled, StatusOf(e)))
  }

  /** One turn of process_staged_events. */
  function OnEvent(r: Reg, e: Event): Reg {
    if e.Trade? then OnTrade(r, e) else OnOrder(r, e)
  }

  function OnAll(r: Reg, evs: seq<Event>): Reg
    decreases |evs|
  {
    if evs == [] then r else OnAll(OnEvent(r, evs[0]), evs[1..])
  }

  // ----- the two namespaces

  predicate Mapped(s: Slot) {
    s.orderId != 0 && s.meId != 0
  }

  /** me_to_gw and slot.me_id are inverse to each other. */
  ghost predicate InverseOf(base: nat, orders: seq<Slot>, meToGw: seq<nat>) {
    && |orders| == |meToGw| == REGISTRY_CAP
    && (forall i | 0 <= i < |orders| && orders[i].orderId != 0 :: orders[i].orderId == base + i + 1)
    && (forall i | 0 <= i < |orders| && Mapped(orders[i]) ::
          orders[i].meId <= REGISTRY_CAP && meToGw[orders[i].meId - 1] == orders[i].orderId)
    && (forall m | 0 <= m < |meToGw| && meToGw[m] != 0 ::
          var i := meToGw[m] - base - 1;
          0 <= i < |orders| && orders[i].orderId == meToGw[m] && orders[i].meId == m + 1)
  }

  ghost predicate Inverse(r: Reg) {
    InverseOf(r.base, r.orders, r.meToGw)
  }

  /** An engine id leads to the slot that carries it, and to no other. */
  lemma SlotOfMe(r: Reg, me: nat, i: nat)
    requires Inverse(r) && i < |r.orders|
    ensures SlotFor(r, GwFromMe(r, me)) == i <==> Mapped(r.orders[i]) && r.orders[i].meId == me
  {
  }

  /** One slot, seen by itself, under one event. */
  function Advance(s: Slot, e: Event): Slot {
    if e.Trade? then
      var s1 := if s.meId == e.aggressor then ApplyFill(s, e.tradeQty) else s;
      if s.meId == e.resting then ApplyFill(s1, e.tradeQty) else s1
    else if s.meId == e.id && !Terminal(s) then ApplyEvent(s, e)
    else s
  }

  function AdvanceAll(s: Slot, evs: seq<Event>): Slot
    decreases |evs|
  {
    if evs == [] then s else AdvanceAll(Advance(s, evs[0]), evs[1..])
  }

  /** A new body under the same ids. */
  lemma SetSlot(r: Reg, i: nat, s: Slot, published: seq<Message>)
    requires Inverse(r) && i < |r.orders| && s.orderId == r.orders[i].orderId && s.meId == r.orders[i].meId
    ensures Inverse(r.(orders := r.orders[i := s], published := published))
  {
  }

  lemma FillAtKeeps(r: Reg, i: nat, qty: nat)
    requires Inverse(r)
    ensures var r' := FillAt(r, i, qty);
      && Inverse(r') && r' == r.(orders := r'.orders)
      && forall k | 0 <= k < |r.orders| :: r'.orders[k] == if k == i then ApplyFill(r.orders[k], qty) else r.orders[k]
  {
    if i < |r.orders| {
      SetSlot(r, i, ApplyFill(r.orders[i], qty), r.published);
    }
    hide InverseOf;
  }

  lemma OnTradeBody(r: Reg, e: Event)
    requires e.Trade?
    ensures var r', r2 := OnTrade(r, e), FillAt(FillAt(r, SlotFor(r, GwFromMe(r, e.aggressor)), e.tradeQty),
                                                SlotFor(r, GwFromMe(r, e.resting)), e.tradeQty);
      r' == r2.(published := r'.published)
  {
    hide FillAt; hide SlotFor; hide GwFromMe;
  }

  lemma PublishedAside(r: Reg, r': Reg)
    requires r' == r.(published := r'.published)
    ensures Inverse(r') <==> Inverse(r)
  {
    hide InverseOf;
  }

  /** The whole registry keeps step with its slots. */
  ghost predicate Stepped(r: Reg, r': Reg, e: Event) {
    && Inverse(r') && r' == r.(orders := r'.orders, published := r'.published)
    && |r'.orders| == |r.orders|
    && forall i | 0 <= i < |r.orders| ::
         r'.orders[i] == if Mapped(r.orders[i]) then Advance(r.orders[i], e) else r.orders[i]
  }

  lemma OnTradeIsPointwise(r: Reg, e: Event)
    requires Inverse(r) && e.Trade?
    ensures Stepped(r, OnTrade(r, e), e)
  {
    forall i | 0 <= i < |r.orders|
      ensures SlotFor(r, GwFromMe(r, e.aggressor)) == i <==> Mapped(r.orders[i]) && r.orders[i].meId == e.aggressor
      ensures SlotFor(r, GwFromMe(r, e.resting)) == i <==> Mapped(r.orders[i]) && r.orders[i].meId == e.resting
    {
      SlotOfMe(r, e.aggressor, i);
      SlotOfMe(r, e.resting, i);
    }
    hide InverseOf; hide FillAt; hide ApplyFill; hide OnTrade; hide SlotFor; hide GwFromMe;
    OnTradeBody(r, e);
    var r1 := FillAt(r, SlotFor(r, GwFromMe(r, e.aggressor)), e.tradeQty);
    FillAtKeeps(r, SlotFor(r, GwFromMe(r, e.aggressor)), e.tradeQty);
    FillAtKeeps(r1, SlotFor(r, GwFromMe(r, e.resting)), e.tradeQty);
    PublishedAside(FillAt(r1, SlotFor(r, GwFromMe(r, e.resting)), e.tradeQty), OnTrade(r, e));
  }

  lemma OnOrderIsPointwise(r: Reg, e: Event)
    requires Inverse(r) && e.OrderEvent?
    ensures Stepped(r, OnOrder(r, e), e)
  {
    forall i | 0 <= i < |r.orders|
      ensures SlotFor(r, GwFromMe(r, e.id)) == i <==> Mapped(r.orders[i]) && r.orders[i].meId == e.id
    {
      SlotOfMe(r, e.id, i);
    }
    hide InverseOf; hide ApplyEvent; hide SlotFor; hide Advance; hide StatusOf; hide OnOrder; hide Terminal;
    hide GwFromMe;
    var i, r' := SlotFor(r, GwFromMe(r, e.id)), OnOrder(r, e);
    OnOrderBody(r, e);
    AdvanceOrder(e);
    if i < |r.orders| && !Terminal(r.orders[i]) {
      ApplyEventIds(r.orders[i], e);
      SetSlot(r, i, ApplyEvent(r.orders[i], e), r'.published);
    } else {
      PublishedAside(r, r');
    }
  }

  lemma OnOrderBody(r: Reg, e: Event)
    requires e.OrderEvent?
    ensures var i, r' := SlotFor(r, GwFromMe(r, e.id)), OnOrder(r, e);
      if i < |r.orders| && !Terminal(r.orders[i])
      then r' == r.(orders := r.orders[i := ApplyEvent(r.orders[i], e)], published := r'.published)
      else r' == r.(published := r'.published)
  {
    hide ApplyEvent; hide Terminal; hide StatusOf;
  }

  lemma AdvanceOrder(e: Event)
    requires e.OrderEvent?
    ensures forall s: Slot :: Advance(s, e) == if s.meId == e.id && !Terminal(s) then ApplyEvent(s, e) else s
  {
  }

  lemma ApplyEventIds(s: Slot, e: Event)
    requires e.OrderEvent?
    ensures ApplyEvent(s, e).orderId == s.orderId && ApplyEvent(s, e).meId == s.meId
  {
  }

  /** The event stream advances every mapped slot by itself and leaves the other slots alone. */
  lemma OnEventIsPointwise(r: Reg, e: Event)
    requires Inverse(r)
    ensures Stepped(r, OnEvent(r, e), e)
  {
    hide Stepped; hide OnTrade; hide OnOrder; hide InverseOf;
    if e.Trade? {
      OnTradeIsPointwise(r, e);
    } else {
      OnOrderIsPointwise(r, e);
    }
  }

  lemma AdvanceIds(s: Slot, e: Event)
    ensures Advance(s, e).orderId == s.orderId && Advance(s, e).meId == s.meId && Advance(s, e).kind == s.kind
    ensures Advance(s, e).account == s.account
  {
  }

  lemma {:induction false} OnAllIsPointwise(r: Reg, evs: seq<Event>)
    requires Inverse(r)
    ensures var r' := OnAll(r, evs);
      && Inverse(r') && r' == r.(orders := r'.orders, published := r'.published)
      && |r'.orders| == |r.orders|
      && forall i | 0 <= i < |r.orders| ::
           r'.orders[i] == if Mapped(r.orders[i]) then AdvanceAll(r.orders[i], evs) else r.orders[i]
    decreases |evs|
  {
    if evs != [] {
      OnEventIsPointwise(r, evs[0]);
      hide OnEvent; hide InverseOf; hide Advance;
      var r1 := OnEvent(r, evs[0]);
      OnAllIsPointwise(r1, evs[1..]);
      forall i | 0 <= i < |r.orders|
        ensures Mapped(r1.orders[i]) == Mapped(r.orders[i])
      {
        AdvanceIds(r.orders[i], evs[0]);
      }
    }
  }
}
