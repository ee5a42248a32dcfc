/** What a listener of the stream knows: the last message about an order is its whole state, and trades name their orders. */
module StreamLaws {
  import opened PriceTime
  import opened BookSpec
  import opened BookLaws
  import opened EngineSpec
  import opened EngineLaws
  import opened PipelineSpec
  import opened PipelineLaws
  import opened Registry
  import opened RegistryLaws
  import opened CascadeLaws
  import opened BridgeSpec
  import G = GatewaySpec

  datatype Heard = Nothing | Heard(m: Message)

  /** The last message about the state of one order. */
  function LastAbout(published: seq<Message>, gw: nat): Heard
    decreases |published|
  {
    if published == [] then Nothing
    else
      var m := published[|published| - 1];
      if m.OrderMsg? && m.orderId == gw then Heard(m) else LastAbout(published[..|published| - 1], gw)
  }

  lemma LastMore(published: seq<Message>, m: Message, gw: nat)
    ensures LastAbout(published + [m], gw)
         == if m.OrderMsg? && m.orderId == gw then Heard(m) else LastAbout(published, gw)
  {
    assert (published + [m])[..|published|] == published;
  }

  /** What was last published about a slot is what it holds. */
  ghost predicate Told(published: seq<Message>, s: Slot) {
    LastAbout(published, s.orderId)
      == Heard(OrderMsg(s.orderId, s.account, s.side, s.kind, s.price, s.original, s.remain, s.filled, s.status))
  }

  lemma ToldMore(published: seq<Message>, m: Message, s: Slot)
    requires m.OrderMsg? && m.orderId == s.orderId ==>
      m == OrderMsg(s.orderId, s.account, s.side, s.kind, s.price, s.original, s.remain, s.filled, s.status)
    requires (m.OrderMsg? && m.orderId == s.orderId) || Told(published, s)
    ensures Told(published + [m], s)
  {
    hide LastAbout;
    LastMore(published, m, s.orderId);
  }

  // ----- one event

  /** Slot numbers and order ids go together. */
  lemma OtherSlot(r: Reg, i: nat, j: nat)
    requires Inverse(r) && i < |r.orders| && j < |r.orders| && r.orders[i].orderId != 0
    ensures r.orders[i].orderId == r.orders[j].orderId <==> i == j
  {
  }

  /** What a trade does to the slots and to the stream. */
  lemma TradeBody(r: Reg, e: Event)
    requires e.Trade?
    ensures var agg, rest := SlotFor(r, GwFromMe(r, e.aggressor)), SlotFor(r, GwFromMe(r, e.resting));
      var r2, r' := FillAt(FillAt(r, agg, e.tradeQty), rest, e.tradeQty), OnTrade(r, e);
      && r'.orders == r2.orders
      && var trade := TradeMsg(e.tradeId, GwFromMe(r, e.aggressor), GwFromMe(r, e.resting), e.aggressorSide, e.tradePrice,
                               e.tradeQty, AccountAt(r2, agg), AccountAt(r2, rest));
         r'.published == if rest < |r2.orders| then r.published + [trade] + [Snapshot(r2.orders[rest])]
                         else r.published + [trade]
  {
    hide SlotFor; hide GwFromMe; hide ApplyFill; hide AccountAt;
  }

  lemma FilledSlots(r: Reg, i: nat, j: nat, qty: nat)
    ensures var r2 := FillAt(FillAt(r, i, qty), j, qty);
      && |r2.orders| == |r.orders|
      && forall k | 0 <= k < |r.orders| ::
           && r2.orders[k].orderId == r.orders[k].orderId
           && (k != i && k != j ==> r2.orders[k] == r.orders[k])
  {
  }

  /** A trade leaves the stream up to date about every order but the one that came. */
  lemma TradeTells(r: Reg, e: Event, i: nat)
    requires Inverse(r) && e.Trade? && i < |r.orders| && r.orders[i].orderId != 0 && Told(r.published, r.orders[i])
    requires r.orders[i].meId != e.aggressor
    ensures Told(OnTrade(r, e).published, OnTrade(r, e).orders[i])
  {
    SlotOfMe(r, e.aggressor, i);
    TradeBody(r, e);
    var agg, rest := SlotFor(r, GwFromMe(r, e.aggressor)), SlotFor(r, GwFromMe(r, e.resting));
    if rest < |r.orders| {
      OtherSlot(r, i, rest);
    }
    FilledSlots(r, agg, rest, e.tradeQty);
    hide InverseOf; hide SlotFor; hide GwFromMe; hide FillAt; hide OnTrade; hide Told; hide AccountAt;
    var r2 := FillAt(FillAt(r, agg, e.tradeQty), rest, e.tradeQty);
    var trade := TradeMsg(e.tradeId, GwFromMe(r, e.aggressor), GwFromMe(r, e.resting), e.aggressorSide, e.tradePrice,
                          e.tradeQty, AccountAt(r2, agg), AccountAt(r2, rest));
    if rest < |r2.orders| {
      var shown := Snapshot(r2.orders[rest]);
      if rest == i {
        ToldMore(r.published + [trade], shown, r2.orders[i]);
      } else {
        ToldMore(r.published, trade, r.orders[i]);
        ToldMore(r.published + [trade], shown, r.orders[i]);
      }
    } else {
      ToldMore(r.published, trade, r.orders[i]);
    }
  }

  /** What an order event does to the slots and to the stream. */
  lemma OrderBody(r: Reg, e: Event)
    requires Inverse(r) && e.OrderEvent?
    ensures var i, r' := SlotFor(r, GwFromMe(r, e.id)), OnOrder(r, e);
      if i < |r.orders| && !Terminal(r.orders[i]) then
        && r'.orders == r.orders[i := ApplyEvent(r.orders[i], e)]
        && r'.published == r.published + [Snapshot(ApplyEvent(r.orders[i], e))]
      else r' == r
  {
    hide ApplyEvent; hide Terminal;
  }

  /** So does an order event, and about its own order in any case, unless the slot is terminal. */
  lemma OrderTells(r: Reg, e: Event, i: nat)
    requires Inverse(r) && e.OrderEvent? && i < |r.orders| && r.orders[i].orderId != 0
    requires Told(r.published, r.orders[i]) || (Mapped(r.orders[i]) && r.orders[i].meId == e.id && !Terminal(r.orders[i]))
    ensures Told(OnOrder(r, e).published, OnOrder(r, e).orders[i])
  {
    SlotOfMe(r, e.id, i);
    OrderBody(r, e);
    var j := SlotFor(r, GwFromMe(r, e.id));
    if j < |r.orders| {
      OtherSlot(r, i, j);
      ApplyEventIds(r.orders[j], e);
      hide InverseOf; hide SlotFor; hide GwFromMe; hide OnOrder; hide Told; hide ApplyEvent; hide Terminal;
      if !Terminal(r.orders[j]) {
        ToldMore(r.published, Snapshot(ApplyEvent(r.orders[j], e)), OnOrder(r, e).orders[i]);
      }
    }
  }

  // ----- a replay

  /** No trade of the order itself. */
  predicate NotItsOwn(evs: seq<Event>, me: nat) {
    forall k | 0 <= k < |evs| && evs[k].Trade? :: evs[k].aggressor != me
  }

  lemma EventTells(r: Reg, e: Event, i: nat)
    requires Inverse(r) && i < |r.orders| && r.orders[i].orderId != 0 && Told(r.published, r.orders[i])
    requires e.Trade? ==> e.aggressor != r.orders[i].meId
    ensures var r' := OnEvent(r, e);
      Inverse(r') && |r'.orders| == |r.orders| && Told(r'.published, r'.orders[i])
      && r'.orders[i].orderId == r.orders[i].orderId && r'.orders[i].meId == r.orders[i].meId
  {
    OnEventIsPointwise(r, e);
    AdvanceIds(r.orders[i], e);
    hide InverseOf; hide OnTrade; hide OnOrder; hide Told; hide Advance;
    if e.Trade? {
      TradeTells(r, e, i);
    } else {
      OrderTells(r, e, i);
    }
  }

  lemma {:induction false} ReplayTells(r: Reg, evs: seq<Event>, i: nat)
    requires Inverse(r) && i < |r.orders| && r.orders[i].orderId != 0 && Told(r.published, r.orders[i])
    requires NotItsOwn(evs, r.orders[i].meId)
    ensures var r' := OnAll(r, evs); |r'.orders| == |r.orders| && Told(r'.published, r'.orders[i])
    decreases |evs|
  {
    hide InverseOf; hide OnEvent; hide Told;
    if evs != [] {
      EventTells(r, evs[0], i);
      ReplayTells(OnEvent(r, evs[0]), evs[1..], i);
    }
  }

  lemma {:induction false} OnAllConcat(r: Reg, a: seq<Event>, b: seq<Event>)
    ensures OnAll(r, a + b) == OnAll(OnAll(r, a), b)
    decreases |a|
  {
    hide OnEvent;
    if a == [] {
      assert a + b == b;
    } else {
      assert (a + b)[1..] == a[1..] + b;
      OnAllConcat(OnEvent(r, a[0]), a[1..], b);
    }
  }

  lemma {:induction false} TradesLeaveOpen(s: Slot, evs: seq<Event>)
    requires !Terminal(s) && forall k | 0 <= k < |evs| :: evs[k].Trade?
    ensures !Terminal(AdvanceAll(s, evs))
    decreases |evs|
  {
    if evs != [] {
      assert !Terminal(Advance(s, evs[0]));
      TradesLeaveOpen(Advance(s, evs[0]), evs[1..]);
    }
  }

  /**
   The order's own trades, the report that closes them, and what follows: after the report the stream is up to date
   about it, whatever was published before.
   */
  lemma ClosingTells(r: Reg, trades: seq<Event>, report: Event, more: seq<Event>, i: nat)
    requires Inverse(r) && i < |r.orders| && Mapped(r.orders[i]) && !Terminal(r.orders[i])
    requires forall k | 0 <= k < |trades| :: trades[k].Trade?
    requires report.OrderEvent? && report.id == r.orders[i].meId && NotItsOwn(more, r.orders[i].meId)
    ensures var r' := OnAll(r, trades + [report] + more);
      |r'.orders| == |r.orders| && Told(r'.published, r'.orders[i]) && r'.orders[i].touched
  {
    ReportTouches(r.orders[i], trades, report, more);
    hide OnAll; hide InverseOf; hide Told; hide Terminal; hide AdvanceAll; hide OnEvent;
    OnAllIsPointwise(r, trades + [report] + more);
    var s := r.orders[i];
    OnAllConcat(r, trades + [report], more);
    OnAllConcat(r, trades, [report]);
    OnAllIsPointwise(r, trades);
    TradesLeaveOpen(s, trades);
    AdvanceSame(s, trades);
    var r1 := OnAll(r, trades);
    OneEvent(r1, report);
    OrderTells(r1, report, i);
    OnEventIsPointwise(r1, report);
    AdvanceIds(r1.orders[i], report);
    ReplayTells(OnEvent(r1, report), more, i);
  }

  lemma ReportTouches(s: Slot, trades: seq<Event>, report: Event, more: seq<Event>)
    requires !Terminal(s) && (forall k | 0 <= k < |trades| :: trades[k].Trade?)
    requires report.OrderEvent? && report.id == s.meId
    ensures AdvanceAll(s, trades + [report] + more).touched
  {
    TradesLeaveOpen(s, trades);
    AdvanceSame(s, trades);
    AdvanceConcat(s, trades + [report], more);
    AdvanceConcat(s, trades, [report]);
    var s1 := AdvanceAll(s, trades);
    AdvanceOne(s1, report);
    StaysTouched(Advance(s1, report), more);
  }

  lemma OneEvent(r: Reg, e: Event)
    ensures OnAll(r, [e]) == OnEvent(r, e) && (e.OrderEvent? ==> OnEvent(r, e) == OnOrder(r, e))
  {
    hide OnTrade; hide OnOrder;
    assert [e][1..] == [];
  }

  // ----- one message

  /** The stream is up to date about every order that has a slot. */
  ghost predicate AllTold(r: Reg) {
    forall i | 0 <= i < |r.orders| && r.orders[i].orderId != 0 :: Told(r.published, r.orders[i])
  }

  /** The events of a submission: the order's own trades, the report that closes them, and what others do. */
  lemma OwnNews(c: Core, r: Request) returns (trades: seq<Event>, report: Event, more: seq<Event>)
    requires WellFormed(c.lob) && Submit(c, r).result.id != 0
    ensures Submit(c, r).core.log == c.log + (trades + [report] + more)
    ensures forall k | 0 <= k < |trades| :: trades[k].Trade?
    ensures report.OrderEvent? && report.id == Submit(c, r).result.id && NotItsOwn(more, report.id)
  {
    hide WellFormed; hide Execute; hide Admissible; hide Trades; hide Tail; hide Add; hide FilledQty; hide AllNews;
    hide NotItsOwn; hide Entry;
    var rest := AfterOwn(c, r);
    var a := Entry(c, r);
    ExecuteLog(c, r);
    TradesAre(a.fills, c.tradeSeq, a.id, r.side);
    TailReports(r, a);
    trades := Trades(a.fills, c.tradeSeq, a.id, r.side);
    var tail := Tail(r, a);
    report, more := tail[0], tail[1..] + rest;
    assert tail == [report] + tail[1..];
    assert c.log + (trades + tail) + rest == c.log + (trades + [report] + more);
    ReportsNotOwn(tail[1..], rest, report.id);
  }

  /** What follows a submission's own events. */
  lemma AfterOwn(c: Core, r: Request) returns (rest: seq<Event>)
    requires WellFormed(c.lob) && Submit(c, r).result.id != 0
    ensures Submit(c, r).core.log == Execute(c, r).core.log + rest && Execute(c, r).result.id == Submit(c, r).result.id
    ensures NotItsOwn(rest, Submit(c, r).result.id)
  {
    hide WellFormed; hide Execute; hide AllNews;
    ExecuteKeeps(c, r);
    SubmitIssues(c, r);
    var e := Execute(c, r);
    rest := [];
    if e.traded && e.core.lastPrice != 0 {
      rest := ScanNews(e.core, e.core.lastPrice, 0);
      NewsNotOwn(rest, e.core.lob.nextId, e.core.stops, e.result.id);
    } else {
      assert e.core.log + rest == e.core.log;
    }
  }

  lemma ReportsNotOwn(reports: seq<Event>, rest: seq<Event>, me: nat)
    requires NotItsOwn(rest, me) && forall k | 0 <= k < |reports| :: reports[k].OrderEvent?
    ensures NotItsOwn(reports + rest, me)
  {
  }

  lemma TailReports(r: Request, a: Added)
    requires FilledQty(a.fills) <= r.qty
    ensures Tail(r, a) != [] && forall k | 0 <= k < |Tail(r, a)| :: Tail(r, a)[k].OrderEvent? && Tail(r, a)[k].id == a.id
  {
  }

  lemma NewsNotOwn(evs: seq<Event>, n: nat, stops: seq<StopOrder>, me: nat)
    requires AllNews(evs, n, stops) && me < n
    ensures NotItsOwn(evs, me)
  {
    forall k | 0 <= k < |evs| && evs[k].Trade?
      ensures evs[k].aggressor != me
    {
      assert News(evs[k], n, stops);
    }
  }

  /** No order that was there before a message trades as the one that came. */
  lemma OldNotOwn(p: Pipe, o: G.Raw, expiry: nat, riskOk: bool, me: nat)
    requires WellFormed(p.core.lob) && me < p.core.lob.nextId
    ensures NotItsOwn(Staged(p, o, expiry, riskOk), me)
  {
    hide WellFormed; hide Submit; hide FirstFree; hide Cancel; hide Modify; hide FindStop; hide Live;
    hide SideHolding; hide Find; hide Passes;
    if o.action == G.ACT_NEW && o.kind < 4 {
      var evs := SubmitNews(p.core, RequestOf(o));
      EmittedIs(p.core, Submit(p.core, RequestOf(o)).core, evs);
      NewsNotOwn(evs, p.core.lob.nextId, p.core.stops, me);
    }
  }

  /** What a message that maps a new order stages about it. */
  lemma StagedOwn(p: Pipe, o: G.Raw, expiry: nat) returns (trades: seq<Event>, report: Event, more: seq<Event>)
    requires WellFormed(p.core.lob) && o.action == G.ACT_NEW && MatchNew(p.core, o, expiry).1 != 0
    ensures Seen(p, o, expiry) == trades + [report] + more
    ensures forall k | 0 <= k < |trades| :: trades[k].Trade?
    ensures report.OrderEvent? && report.id == MatchNew(p.core, o, expiry).1 && NotItsOwn(more, report.id)
  {
    hide WellFormed; hide Submit;
    if o.kind < 4 {
      trades, report, more := OwnNews(p.core, RequestOf(o));
      EmittedIs(p.core, Submit(p.core, RequestOf(o)).core, trades + [report] + more);
    } else {
      hide FirstFree;
      var c' := Routed(p, o, expiry).core;
      trades, report, more := [], c'.log[|p.core.log|], [];
      assert c'.log == p.core.log + (trades + [report] + more);
      EmittedIs(p.core, c', trades + [report] + more);
    }
  }

  /** The synthetic rejection tells its slot, and no other. */
  lemma RejectTells(r: Reg, o: G.Raw, gw: nat, i: nat)
    requires Inverse(r) && i < |r.orders| && r.orders[i].orderId != 0
    requires Told(r.published, r.orders[i]) || (r.orders[i].orderId == gw && Tracked(r, o, gw) && !r.orders[i].touched)
    requires r.orders[i].orderId == gw && Tracked(r, o, gw) && !r.orders[i].touched ==> r.orders[i].filled == 0
    ensures var r' := RejectUntouched(r, o, gw); |r'.orders| == |r.orders| && Told(r'.published, r'.orders[i])
  {
    var r' := RejectUntouched(r, o, gw);
    if r' != r {
      var n := gw - r.base - 1;
      OtherSlot(r, i, n);
      hide InverseOf; hide Told;
      ToldMore(r.published, Snapshot(r'.orders[n]).(filled := 0), r'.orders[i]);
    }
  }

  lemma RegisteredSlot(r: Reg, o: G.Raw, gw: nat, me: nat, i: nat)
    requires Inverse(r) && i < |r.orders| && !(Tracked(r, o, gw) && i == gw - r.base - 1)
    ensures var r2 := Bind(Register(r, o, gw), o, gw, me);
      |r2.orders| == |r.orders| && r2.orders[i] == r.orders[i] && r2.published == r.published && r2.base == r.base
  {
  }

  /** After every accepted message the stream is up to date about every order. */
  lemma AcceptTells(b: Bridge, o: G.Raw, gw: nat, expiry: nat, riskOk: bool, last: nat)
    requires BridgeSpec.Inv(b, last) && last < gw && AllTold(b.reg)
    ensures AllTold(Accept(b, o, gw, expiry, riskOk, Staged(b.pipe, o, expiry, riskOk)).reg)
  {
    hide InStep; hide AdvanceAll; hide OnAll; hide InverseOf; hide WellFormed; hide Routed; hide Seen; hide Passes;
    hide MatchNew; hide Register; hide Bind; hide RejectUntouched; hide Issued; hide IdsIssued; hide SettleAll; hide Told;
    hide AllAgree;
    var p, c := b.pipe, b.pipe.core;
    var evs := Staged(p, o, expiry, riskOk);
    var p' := Handle(p, o, expiry, riskOk, evs);
    var r1, me := Register(b.reg, o, gw), NewId(p.owners, p'.owners);
    WellFormedNext(c.lob);
    RegisterKeeps(b.reg, o, gw, last, c);
    RoutedMoves(p, o, expiry);
    BindKeeps(r1, o, gw, me, c.lob.nextId, p'.core.lob.nextId);
    var r2 := Bind(r1, o, gw, me);
    OnAllIsPointwise(r2, evs);
    OnAllMaps(r2, evs);
    var r3 := OnAll(r2, evs);
    forall i | 0 <= i < |r2.orders| && r2.orders[i].orderId != 0
      ensures var r4 := RejectUntouched(r3, o, gw); |r4.orders| == |r2.orders| && Told(r4.published, r4.orders[i])
    {
      AdvanceSame(r2.orders[i], evs);
      if Tracked(b.reg, o, gw) && i == gw - b.reg.base - 1 {
        NewTold(b, o, gw, expiry, riskOk, r2, me);
      } else {
        RegisteredSlot(b.reg, o, gw, me, i);
        OldIssued(b.reg, last, c.lob.nextId, i);
        OldNotOwn(p, o, expiry, riskOk, r2.orders[i].meId);
        ReplayTells(r2, evs, i);
        OtherThan(b.reg, last, gw, i);
      }
      RejectTells(r3, o, gw, i);
    }
    RejectIds(r3, o, gw);
  }

  lemma OtherThan(r: Reg, last: nat, gw: nat, i: nat)
    requires i < |r.orders| && last < gw && forall k | 0 <= k < |r.orders| :: r.orders[k].orderId <= last
    ensures r.orders[i].orderId != gw
  {
  }

  lemma RejectIds(r: Reg, o: G.Raw, gw: nat)
    ensures var r' := RejectUntouched(r, o, gw);
      |r'.orders| == |r.orders| && forall i | 0 <= i < |r.orders| :: r'.orders[i].orderId == r.orders[i].orderId
  {
  }

  /** A slot's engine id was issued, or it has none. */
  lemma OldIssued(r: Reg, gw: nat, nextId: nat, i: nat)
    requires Inverse(r) && Issued(r, gw, nextId) && i < |r.orders| && r.orders[i].orderId != 0 && 0 < nextId
    ensures r.orders[i].meId < nextId
    ensures forall k | 0 <= k < |r.orders| :: r.orders[k].orderId <= gw
  {
  }

  /** The slot of the new order, when the staged events are through. */
  lemma NewTold(b: Bridge, o: G.Raw, gw: nat, expiry: nat, riskOk: bool, r2: Reg, me: nat)
    requires WellFormed(b.pipe.core.lob) && Inverse(r2) && Tracked(b.reg, o, gw) && r2.base == b.reg.base
    requires |r2.orders| == |b.reg.orders|
    requires me == NewId(b.pipe.owners, Handle(b.pipe, o, expiry, riskOk, Staged(b.pipe, o, expiry, riskOk)).owners)
    requires me != 0 ==> Passes(b.pipe, o, riskOk) && me == MatchNew(b.pipe.core, o, expiry).1
    requires r2.orders[gw - r2.base - 1] == NewSlot(o, gw).(meId := if 1 <= me <= REGISTRY_CAP then me else 0)
    ensures var r3, i := OnAll(r2, Staged(b.pipe, o, expiry, riskOk)), gw - r2.base - 1;
      && |r3.orders| == |r2.orders|
      && ((Told(r3.published, r3.orders[i]) && r3.orders[i].touched)
          || (r3.orders[i].orderId == gw && !r3.orders[i].touched && r3.orders[i].filled == 0))
  {
    hide InverseOf; hide WellFormed; hide Routed; hide Seen; hide Passes; hide MatchNew; hide SettleAll; hide Told;
    hide OnAll; hide AdvanceAll;
    var i, evs := gw - r2.base - 1, Staged(b.pipe, o, expiry, riskOk);
    OnAllIsPointwise(r2, evs);
    if 1 <= me <= REGISTRY_CAP {
      var trades, report, more := StagedOwn(b.pipe, o, expiry);
      ClosingTells(r2, trades, report, more, i);
    }
  }

  // ----- trades

  function TradeEvents(evs: seq<Event>): seq<Event> {
    if evs == [] then [] else (if evs[0].Trade? then [evs[0]] else []) + TradeEvents(evs[1..])
  }

  function TradeMessages(ms: seq<Message>): seq<Message> {
    if ms == [] then [] else (if ms[0].TradeMsg? then [ms[0]] else []) + TradeMessages(ms[1..])
  }

  lemma {:induction false} MessagesConcat(a: seq<Message>, b: seq<Message>)
    ensures TradeMessages(a + b) == TradeMessages(a) + TradeMessages(b)
  {
    if a == [] {
      assert a + b == b;
    } else {
      MessagesConcat(a[1..], b);
      var first := if a[0].TradeMsg? then [a[0]] else [];
      var x, y := TradeMessages(a[1..]), TradeMessages(b);
      assert (a + b)[0] == a[0] && (a + b)[1..] == a[1..] + b;
      assert TradeMessages(a + b) == first + (x + y);
      assert TradeMessages(a) + y == first + x + y;
    }
  }

  /** The public id and the account of an engine id: those of its slot, zero when it has none. */
  ghost predicate Names(orders: seq<Slot>, me: nat, gw: nat, account: nat) {
    && (forall i | 0 <= i < |orders| && Mapped(orders[i]) && orders[i].meId == me ::
          gw == orders[i].orderId && account == orders[i].account)
    && ((forall i | 0 <= i < |orders| :: !(Mapped(orders[i]) && orders[i].meId == me)) ==> gw == 0 && account == 0)
  }

  /** A message repeats a trade and names its two orders. */
  ghost predicate Repeats(orders: seq<Slot>, e: Event, m: Message) {
    && e.Trade? && m.TradeMsg?
    && m.tradeId == e.tradeId && m.aggressorSide == e.aggressorSide && m.tradePrice == e.tradePrice && m.tradeQty == e.tradeQty
    && Names(orders, e.aggressor, m.aggressor, m.aggressorAccount) && Names(orders, e.resting, m.resting, m.restingAccount)
  }

  ghost predicate RepeatsAll(orders: seq<Slot>, evs: seq<Event>, ms: seq<Message>) {
    |evs| == |ms| && forall k | 0 <= k < |evs| :: Repeats(orders, evs[k], ms[k])
  }

  lemma GwNames(r: Reg, me: nat, account: nat)
    requires Inverse(r) && account == AccountAt(r, SlotFor(r, GwFromMe(r, me)))
    ensures Names(r.orders, me, GwFromMe(r, me), account)
  {
    forall i | 0 <= i < |r.orders|
      ensures SlotFor(r, GwFromMe(r, me)) == i <==> Mapped(r.orders[i]) && r.orders[i].meId == me
    {
      SlotOfMe(r, me, i);
    }
    hide InverseOf;
    if SlotFor(r, GwFromMe(r, me)) == |r.orders| {
      NoSlotNoGw(r, me);
      NoAccount(r);
    }
  }

  lemma NoAccount(r: Reg)
    ensures AccountAt(r, |r.orders|) == 0
  {
  }

  lemma NoSlotNoGw(r: Reg, me: nat)
    requires Inverse(r) && SlotFor(r, GwFromMe(r, me)) == |r.orders|
    ensures GwFromMe(r, me) == 0
  {
  }

  lemma TradeRepeats(r: Reg, e: Event) returns (said: seq<Message>)
    requires Inverse(r) && e.Trade?
    ensures OnTrade(r, e).published == r.published + said && said != []
    ensures Repeats(r.orders, e, said[0]) && TradeMessages(said) == [said[0]]
  {
    TradeBody(r, e);
    var agg, rest := SlotFor(r, GwFromMe(r, e.aggressor)), SlotFor(r, GwFromMe(r, e.resting));
    FilledAccounts(r, agg, rest, e.tradeQty);
    GwNames(r, e.aggressor, AccountAt(r, agg));
    GwNames(r, e.resting, AccountAt(r, rest));
    hide InverseOf; hide SlotFor; hide GwFromMe; hide FillAt; hide OnTrade; hide AccountAt; hide Names; hide TradeMessages;
    var r2 := FillAt(FillAt(r, agg, e.tradeQty), rest, e.tradeQty);
    var trade := TradeMsg(e.tradeId, GwFromMe(r, e.aggressor), GwFromMe(r, e.resting), e.aggressorSide, e.tradePrice,
                          e.tradeQty, AccountAt(r2, agg), AccountAt(r2, rest));
    assert Repeats(r.orders, e, trade);
    hide Repeats;
    var shown := if rest < |r2.orders| then [Snapshot(r2.orders[rest])] else [];
    said := [trade] + shown;
    Appended(r.published, trade, shown);
    OneTrade(trade, shown);
  }

  lemma Appended(p: seq<Message>, m: Message, shown: seq<Message>)
    requires |shown| <= 1
    ensures p + ([m] + shown) == if shown == [] then p + [m] else p + [m] + [shown[0]]
  {
  }

  lemma OneTrade(trade: Message, shown: seq<Message>)
    requires trade.TradeMsg? && |shown| <= 1 && (shown != [] ==> shown[0].OrderMsg?)
    ensures TradeMessages([trade] + shown) == [trade]
  {
    assert ([trade] + shown)[1..] == shown;
    assert shown != [] ==> shown[1..] == [];
  }

  lemma FilledAccounts(r: Reg, i: nat, j: nat, qty: nat)
    ensures var r2 := FillAt(FillAt(r, i, qty), j, qty);
      AccountAt(r2, i) == AccountAt(r, i) && AccountAt(r2, j) == AccountAt(r, j)
  {
  }

  lemma OrderRepeats(r: Reg, e: Event) returns (said: seq<Message>)
    requires Inverse(r) && e.OrderEvent?
    ensures OnOrder(r, e).published == r.published + said && TradeMessages(said) == []
  {
    OrderBody(r, e);
    var i := SlotFor(r, GwFromMe(r, e.id));
    hide InverseOf; hide SlotFor; hide GwFromMe; hide OnOrder; hide ApplyEvent; hide Terminal;
    said := if i < |r.orders| && !Terminal(r.orders[i]) then [Snapshot(ApplyEvent(r.orders[i], e))] else [];
    assert said == [] || said[1..] == [];
    assert said == [] ==> r.published + said == r.published;
  }

  lemma SameNames(a: seq<Slot>, b: seq<Slot>, me: nat, gw: nat, account: nat)
    requires Names(b, me, gw, account) && |a| == |b|
    requires forall i | 0 <= i < |a| ::
      a[i].orderId == b[i].orderId && a[i].meId == b[i].meId && a[i].account == b[i].account
    ensures Names(a, me, gw, account)
  {
    if forall i | 0 <= i < |a| :: !(Mapped(a[i]) && a[i].meId == me) {
      assert forall i | 0 <= i < |b| :: !(Mapped(b[i]) && b[i].meId == me) by {
        forall i | 0 <= i < |b|
          ensures !(Mapped(b[i]) && b[i].meId == me)
        {
          assert !(Mapped(a[i]) && a[i].meId == me);
        }
      }
    }
  }

  lemma SameRepeats(a: seq<Slot>, b: seq<Slot>, evs: seq<Event>, ms: seq<Message>)
    requires RepeatsAll(b, evs, ms) && |a| == |b|
    requires forall i | 0 <= i < |a| ::
      a[i].orderId == b[i].orderId && a[i].meId == b[i].meId && a[i].account == b[i].account
    ensures RepeatsAll(a, evs, ms)
  {
    hide Names;
    forall k | 0 <= k < |evs|
      ensures Repeats(a, evs[k], ms[k])
    {
      assert Repeats(b, evs[k], ms[k]);
      SameNames(a, b, evs[k].aggressor, ms[k].aggressor, ms[k].aggressorAccount);
      SameNames(a, b, evs[k].resting, ms[k].resting, ms[k].restingAccount);
    }
  }

  /** A replay publishes every trade once, in order, under the public ids and accounts of its orders. */
  lemma {:induction false} ReplayRepeats(r: Reg, evs: seq<Event>) returns (said: seq<Message>)
    requires Inverse(r)
    ensures OnAll(r, evs).published == r.published + said && RepeatsAll(r.orders, TradeEvents(evs), TradeMessages(said))
    decreases |evs|
  {
    hide InverseOf; hide OnTrade; hide OnOrder; hide Repeats; hide Advance;
    if evs == [] {
      said := [];
    } else {
      var e := evs[0];
      OnEventIsPointwise(r, e);
      var r1 := OnEvent(r, e);
      var first;
      if e.Trade? {
        first := TradeRepeats(r, e);
      } else {
        first := OrderRepeats(r, e);
      }
      var more := ReplayRepeats(r1, evs[1..]);
      forall i | 0 <= i < |r.orders|
        ensures r.orders[i].orderId == r1.orders[i].orderId && r.orders[i].meId == r1.orders[i].meId
        ensures r.orders[i].account == r1.orders[i].account
      {
        AdvanceIds(r.orders[i], e);
      }
      SameRepeats(r.orders, r1.orders, TradeEvents(evs[1..]), TradeMessages(more));
      said := first + more;
      MessagesConcat(first, more);
      assert r.published + first + more == r.published + said;
    }
  }

  /** So does every accepted message: its trades are published under the ids and accounts that the registry shows. */
  lemma AcceptRepeats(b: Bridge, o: G.Raw, gw: nat, expiry: nat, riskOk: bool, last: nat) returns (said: seq<Message>)
    requires BridgeSpec.Inv(b, last) && last < gw
    ensures var evs := Staged(b.pipe, o, expiry, riskOk);
      var b' := Accept(b, o, gw, expiry, riskOk, evs);
      && b'.reg.published == b.reg.published + said
      && RepeatsAll(b'.reg.orders, TradeEvents(evs), TradeMessages(said))
  {
    hide InStep; hide AdvanceAll; hide OnAll; hide InverseOf; hide WellFormed; hide Routed; hide Seen; hide Passes;
    hide MatchNew; hide Issued; hide IdsIssued; hide SettleAll; hide RepeatsAll; hide AllAgree; hide RejectUntouched;
    hide Register; hide Bind;
    var p, c := b.pipe, b.pipe.core;
    var evs := Staged(p, o, expiry, riskOk);
    var p' := Handle(p, o, expiry, riskOk, evs);
    var r1, me := Register(b.reg, o, gw), NewId(p.owners, p'.owners);
    RegisterKeeps(b.reg, o, gw, last, c);
    RoutedMoves(p, o, expiry);
    BindKeeps(r1, o, gw, me, c.lob.nextId, p'.core.lob.nextId);
    var r2 := Bind(r1, o, gw, me);
    BoundPublished(b.reg, o, gw, me);
    OnAllIsPointwise(r2, evs);
    var replayed := ReplayRepeats(r2, evs);
    var r3 := OnAll(r2, evs);
    var synthetic := RejectSays(r3, o, gw);
    said := replayed + synthetic;
    MessagesConcat(replayed, synthetic);
    assert TradeMessages(replayed) + [] == TradeMessages(replayed);
    assert b.reg.published + replayed + synthetic == b.reg.published + said;
    var r4 := RejectUntouched(r3, o, gw);
    forall i | 0 <= i < |r2.orders|
      ensures r4.orders[i].orderId == r2.orders[i].orderId && r4.orders[i].meId == r2.orders[i].meId
      ensures r4.orders[i].account == r2.orders[i].account
    {
      AdvanceSame(r2.orders[i], evs);
    }
    SameRepeats(r4.orders, r2.orders, TradeEvents(evs), TradeMessages(replayed));
  }

  lemma BoundPublished(r: Reg, o: G.Raw, gw: nat, me: nat)
    ensures Bind(Register(r, o, gw), o, gw, me).published == r.published
  {
  }

  lemma RejectSays(r: Reg, o: G.Raw, gw: nat) returns (said: seq<Message>)
    ensures var r' := RejectUntouched(r, o, gw);
      && r'.published == r.published + said && TradeMessages(said) == [] && |r'.orders| == |r.orders|
      && forall i | 0 <= i < |r.orders| ::
           r'.orders[i].orderId == r.orders[i].orderId && r'.orders[i].meId == r.orders[i].meId
           && r'.orders[i].account == r.orders[i].account
  {
    var r' := RejectUntouched(r, o, gw);
    said := r'.published[|r.published|..];
    assert said == [] || (said == [said[0]] && said[0].OrderMsg? && said[1..] == []);
  }
}
