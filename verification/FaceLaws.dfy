/** What the open slot of an order shows: the limit it rests at, its side, and whether it was partly filled. */
module FaceLaws {
  import opened Types
  import opened PriceTime
  import opened BookSpec
  import opened BookLaws
  import opened EngineSpec
  import opened EngineLaws
  import opened PipelineSpec
  import opened PipelineLaws
  import opened Registry
  import opened RegistryLaws
  import opened CascadeLaws
  import opened BridgeSpec
  import opened LedgerLaws
  import Audit = AuditLaws
  import Fills = FillLaws
  import StopLaws
  import StreamLaws
  import G = GatewaySpec

  /** The claim that the slot stands for: a market order until it is amended names no price. */
  ghost function ClaimOf(s: Slot, log: seq<Event>): Audit.Claim {
    Audit.Claim(s.side, if s.kind != Market || Fills.Amended(log, s.meId) then s.price
                        else if s.side == Bid then 0x7FFF_FFFF_FFFF_FFFF else 1)
  }

  predicate IsOpen(s: Slot) {
    s.status in {SlotStatus.Open, SlotStatus.Partial}
  }

  /** Open means nothing filled yet, partial means something, and what is filled or cancelled has nothing left. */
  predicate StatusFits(s: Slot) {
    && (s.status == SlotStatus.Open ==> s.filled == 0) && (s.status == SlotStatus.Partial ==> s.filled > 0)
    && (s.status in {SlotStatus.Filled, SlotStatus.Cancelled} ==> s.remain == 0)
  }

  /** An order event of that type about order x. */
  ghost predicate Said(log: seq<Event>, x: nat, etype: EventType) {
    exists i :: 0 <= i < |log| && log[i].OrderEvent? && log[i].id == x && log[i].etype == etype
  }

  /** Cancelled or rejected is what was announced so; a cancellation is final. */
  ghost predicate FateFits(s: Slot, log: seq<Event>) {
    && (s.status == SlotStatus.Cancelled <==> Said(log, s.meId, OrderCancelled))
    && (s.status == SlotStatus.Rejected <==> Said(log, s.meId, OrderRejected) && !Said(log, s.meId, OrderCancelled))
  }

  ghost predicate Faced(s: Slot, log: seq<Event>) {
    StatusFits(s) && FateFits(s, log) && (IsOpen(s) ==> Audit.Claimed(log, s.meId) == ClaimOf(s, log))
  }

  lemma SaidMore(log: seq<Event>, e: Event, x: nat, etype: EventType)
    ensures Said(log + [e], x, etype) <==> Said(log, x, etype) || (e.OrderEvent? && e.id == x && e.etype == etype)
  {
    var t := log + [e];
    assert t[|log|] == e;
    if Said(log, x, etype) {
      var i :| 0 <= i < |log| && log[i].OrderEvent? && log[i].id == x && log[i].etype == etype;
      assert t[i] == log[i];
    }
    if Said(t, x, etype) {
      var i :| 0 <= i < |t| && t[i].OrderEvent? && t[i].id == x && t[i].etype == etype;
      assert i < |log| ==> log[i] == t[i];
    }
  }

  // ----- events about others, and fills

  /** A trade, or a report about another order. */
  predicate Aside(e: Event, me: nat) {
    if e.Trade? then e.tradeQty > 0 else e.id != me
  }

  /** An order that is still open, or was filled. */
  ghost predicate Going(s: Slot, log: seq<Event>) {
    && StatusFits(s) && FateFits(s, log) && s.status !in {SlotStatus.Cancelled, SlotStatus.Rejected}
    && Audit.Claimed(log, s.meId) == ClaimOf(s, log)
  }

  lemma AsideOne(s: Slot, log: seq<Event>, e: Event)
    requires Going(s, log) && Aside(e, s.meId)
    ensures Going(Advance(s, e), log + [e]) && Advance(s, e).meId == s.meId
  {
    hide Audit.Claimed; hide Fills.Amended; hide Said;
    Audit.ClaimedOther(log, [e], s.meId);
    Fills.AmendedOne(log, e, s.meId);
    SaidMore(log, e, s.meId, OrderCancelled);
    SaidMore(log, e, s.meId, OrderRejected);
  }

  lemma {:induction false} AsideMany(s: Slot, log: seq<Event>, evs: seq<Event>)
    requires Going(s, log) && forall k | 0 <= k < |evs| :: Aside(evs[k], s.meId)
    ensures Faced(AdvanceAll(s, evs), log + evs)
    decreases |evs|
  {
    hide Audit.Claimed; hide ClaimOf; hide StatusFits; hide Advance; hide FateFits;
    if evs == [] {
      assert log + [] == log;
    } else {
      assert Aside(evs[0], s.meId);
      AsideOne(s, log, evs[0]);
      hide Going;
      AsideMany(Advance(s, evs[0]), log + [evs[0]], evs[1..]);
      assert log + [evs[0]] + evs[1..] == log + evs;
    }
  }

  /** Nothing traded means that no trade was about the order. */
  lemma {:induction false} NothingTraded(evs: seq<Event>, me: nat)
    requires Fills.Traded(evs, me) == 0 && forall k | 0 <= k < |evs| :: Aside(evs[k], me)
    ensures forall k | 0 <= k < |evs| :: Elsewhere(evs[k], me)
  {
    if evs != [] {
      assert Aside(evs[0], me);
      assert forall k | 0 <= k < |evs[1..]| :: evs[1..][k] == evs[k + 1];
      NothingTraded(evs[1..], me);
      assert forall k | 0 < k < |evs| :: evs[k] == evs[1..][k - 1];
    }
  }

  lemma {:induction false} SaidElsewhere(log: seq<Event>, evs: seq<Event>, x: nat, etype: EventType)
    requires forall k | 0 <= k < |evs| && evs[k].OrderEvent? :: evs[k].id != x
    ensures Said(log + evs, x, etype) <==> Said(log, x, etype)
    decreases |evs|
  {
    hide Said;
    if evs == [] {
      assert log + evs == log;
    } else {
      SaidMore(log, evs[0], x, etype);
      SaidElsewhere(log + [evs[0]], evs[1..], x, etype);
      assert log + [evs[0]] + evs[1..] == log + evs;
    }
  }

  lemma ClosedStays(s: Slot, log: seq<Event>, evs: seq<Event>)
    requires Faced(s, log) && !IsOpen(s) && forall k | 0 <= k < |evs| :: Elsewhere(evs[k], s.meId)
    ensures Faced(AdvanceAll(s, evs), log + evs)
  {
    hide Said;
    AdvanceElsewhere(s, evs);
    SaidElsewhere(log, evs, s.meId, OrderCancelled);
    SaidElsewhere(log, evs, s.meId, OrderRejected);
  }

  /** A slot in step with the book, through whatever a cascade brings. */
  lemma CascadeFaces(c: Core, b': Lob, evs: seq<Event>, s: Slot)
    requires InStep(s, c) && Faced(s, c.log)
    requires ProperTrades(evs) && AllNews(evs, c.lob.nextId, c.stops) && Conserves(c.lob, b', evs, s.meId)
    ensures Faced(AdvanceAll(s, evs), c.log + evs)
  {
    forall k | 0 <= k < |evs|
      ensures Aside(evs[k], s.meId)
    {
      assert News(evs[k], c.lob.nextId, c.stops);
    }
    hide WellFormed; hide Left; hide Fills.Counted; hide Audit.Claimed; hide AdvanceAll; hide ClaimOf; hide AllNews;
    if IsOpen(s) {
      AsideMany(s, c.log, evs);
    } else {
      NothingTraded(evs, s.meId);
      ClosedStays(s, c.log, evs);
    }
  }

  lemma SameSuffix(log: seq<Event>, a: seq<Event>, b: seq<Event>)
    requires log + a == log + b
    ensures a == b
  {
    assert (log + a)[|log|..] == a && (log + b)[|log|..] == b;
  }

  lemma SubmitFaces(c: Core, r: Request, s: Slot) returns (evs: seq<Event>)
    requires InStep(s, c) && Faced(s, c.log)
    ensures Submit(c, r).core.log == c.log + evs && Faced(AdvanceAll(s, evs), c.log + evs)
  {
    var _ := Formed(s, c);
    hide InStep; hide Faced; hide WellFormed; hide Submit; hide ProperTrades; hide AllNews; hide Conserves; hide AdvanceAll;
    evs := SubmitNews(c, r);
    var proper := SubmitProper(c, r);
    SameSuffix(c.log, evs, proper);
    var conserved := SubmitConserves(c, r, s.meId);
    SameSuffix(c.log, evs, conserved);
    CascadeFaces(c, Submit(c, r).core.lob, evs, s);
  }

  lemma Formed(s: Slot, c: Core) returns (me: nat)
    requires InStep(s, c)
    ensures WellFormed(c.lob) && me == s.meId > 0
  {
    me := s.meId;
  }

  // ----- the order itself

  /** Its own trades, as the order that came. */
  lemma {:induction false} TradesFit(s: Slot, evs: seq<Event>)
    requires StatusFits(s) && forall k | 0 <= k < |evs| :: evs[k].Trade? && evs[k].tradeQty > 0
    ensures StatusFits(AdvanceAll(s, evs))
    decreases |evs|
  {
    if evs != [] {
      assert evs[0].Trade? && evs[0].tradeQty > 0;
      assert StatusFits(Advance(s, evs[0]));
      TradesFit(Advance(s, evs[0]), evs[1..]);
    }
  }

  /** The report that closes them names what the slot shows. */
  lemma ReportFaces(r: Request, a: Added, s: Slot, log: seq<Event>)
    requires FilledQty(a.fills) <= r.qty && s.meId == a.id && StatusFits(s) && !Terminal(s)
    requires s.side == r.side && s.kind == r.kind && s.price == r.price && s.filled == FilledQty(a.fills)
    requires r.kind == Market ==> r.price == 0
    requires !Fills.Amended(log, s.meId) && !Said(log, s.meId, OrderCancelled) && !Said(log, s.meId, OrderRejected)
    ensures Faced(AdvanceAll(s, Tail(r, a)), log + Tail(r, a))
  {
    hide Fills.Amended; hide FilledQty; hide Said;
    var t := Tail(r, a);
    var e := t[0];
    Fills.AmendedOne(log, e, s.meId);
    SaidMore(log, e, s.meId, OrderCancelled);
    SaidMore(log, e, s.meId, OrderRejected);
    if Drops(r, a) {
      var s1 := Advance(s, e);
      assert t == [e, t[1]] && t[1..] == [t[1]] && log + [e] + [t[1]] == log + t;
      AdvanceOne(s1, t[1]);
      SaidMore(log + [e], t[1], s.meId, OrderCancelled);
      SaidMore(log + [e], t[1], s.meId, OrderRejected);
      assert Terminal(s1) && AdvanceAll(s, t) == s1;
    } else {
      assert t == [e];
      AdvanceOne(s, e);
      if Audit.Claims(e, s.meId) {
        Audit.ClaimedNow(log, e);
      }
    }
  }

  /** No report is about an order before it is there. */
  ghost predicate Below(evs: seq<Event>, nextId: nat) {
    forall k | 0 <= k < |evs| && evs[k].OrderEvent? :: evs[k].id < nextId
  }

  lemma BelowIsSilent(log: seq<Event>, nextId: nat, x: nat)
    requires Below(log, nextId) && nextId <= x
    ensures !Fills.Amended(log, x) && forall etype: EventType :: !Said(log, x, etype)
  {
  }

  lemma TradesSayNothing(log: seq<Event>, ts: seq<Event>, n: nat)
    requires Below(log, n) && forall k | 0 <= k < |ts| :: ts[k].Trade?
    ensures Below(log + ts, n)
  {
  }

  lemma OwnFaces(c: Core, r: Request, s: Slot)
    requires WellFormed(c.lob) && Execute(c, r).result.id != 0 && Fresh(s, r.qty, Execute(c, r).result.id)
    requires s.side == r.side && s.kind == r.kind && s.price == r.price && Below(c.log, c.lob.nextId)
    ensures Faced(AdvanceAll(s, Events(c, r)), c.log + Events(c, r))
  {
    hide AdvanceAll; hide ClaimOf; hide StatusFits; hide Entry; hide Said; hide Below;
    var a := Entry(c, r);
    var ts := Trades(a.fills, c.tradeSeq, a.id, r.side);
    ExecuteLog(c, r);
    SubmitIssues(c, r);
    MarketHasNoPrice(c, r);
    FreshFits(s, r);
    hide Admissible;
    hide WellFormed; hide Execute; hide Trades; hide FilledOf; hide Add; hide Tail; hide FokFillable; hide FilledQty;
    hide Fills.Amended; hide Faced; hide Left;
    EntryStatus(c, r);
    ExecuteLeft(c, r, s.meId);
    EntryPositive(c, r);
    TradesAre(a.fills, c.tradeSeq, a.id, r.side);
    AggressorTrades(s, a.fills, c.tradeSeq, r.side);
    TradesFit(s, ts);
    TradesSayNothing(c.log, ts, c.lob.nextId);
    BelowIsSilent(c.log + ts, c.lob.nextId, s.meId);
    StreamLaws.TradesLeaveOpen(s, ts);
    var t := AdvanceAll(s, ts);
    AdvanceSame(s, ts);
    TradesSameFace(s, ts);
    AdvanceConcat(s, ts, Tail(r, a));
    ReportFaces(r, a, t, c.log + ts);
    assert c.log + ts + Tail(r, a) == c.log + (ts + Tail(r, a));
  }

  lemma MarketHasNoPrice(c: Core, r: Request)
    requires Admissible(c.lob, r)
    ensures r.kind == Market ==> r.price == 0
  {
  }

  lemma FreshFits(s: Slot, r: Request)
    requires Fresh(s, r.qty, s.meId)
    ensures StatusFits(s) && !Terminal(s)
  {
  }

  lemma {:induction false} TradesSameFace(s: Slot, evs: seq<Event>)
    requires forall k | 0 <= k < |evs| :: evs[k].Trade?
    ensures AdvanceAll(s, evs).side == s.side && AdvanceAll(s, evs).price == s.price
    decreases |evs|
  {
    if evs != [] {
      TradesSameFace(Advance(s, evs[0]), evs[1..]);
    }
  }

  /** And through the cascade that its trades set off. */
  lemma OwnSubmitFaces(c: Core, r: Request, s: Slot) returns (evs: seq<Event>)
    requires WellFormed(c.lob) && IdsIssued(c) && Submit(c, r).result.id != 0 && Fresh(s, r.qty, Submit(c, r).result.id)
    requires s.side == r.side && s.kind == r.kind && s.price == r.price && Below(c.log, c.lob.nextId)
    ensures Submit(c, r).core.log == c.log + evs && Faced(AdvanceAll(s, evs), c.log + evs)
  {
    hide WellFormed; hide Execute; hide Events; hide Fresh; hide InStep; hide Faced; hide Below; hide IdsIssued;
    hide ProperTrades; hide AllNews; hide Conserves; hide AdvanceAll;
    OwnFaces(c, r, s);
    OwnStarts(c, r, s);
    evs := Events(c, r);
    var e := Execute(c, r);
    if e.traded && e.core.lastPrice != 0 {
      var t := AdvanceAll(s, evs);
      var me := Formed(t, e.core);
      var more := ScanNews(e.core, e.core.lastPrice, 0);
      var proper := ScanProper(e.core, e.core.lastPrice, 0);
      SameSuffix(e.core.log, more, proper);
      var conserved := ScanConserves(e.core, e.core.lastPrice, 0, me);
      SameSuffix(e.core.log, more, conserved);
      CascadeFaces(e.core, Scan(e.core, e.core.lastPrice, 0).lob, more, t);
      AdvanceConcat(s, evs, more);
      assert c.log + evs + more == c.log + (evs + more);
      evs := evs + more;
    }
  }

  // ----- the other messages

  lemma SilentFaces(s: Slot, log: seq<Event>, evs: seq<Event>)
    requires Faced(s, log) && forall k | 0 <= k < |evs| :: evs[k].OrderEvent? && evs[k].id != s.meId
    ensures Faced(AdvanceAll(s, evs), log + evs)
  {
    hide Audit.Claimed; hide AdvanceAll; hide ClaimOf; hide Said;
    if IsOpen(s) {
      AsideMany(s, log, evs);
    } else {
      ClosedStays(s, log, evs);
    }
  }

  /** A cancellation closes the slot it is about. */
  lemma CancelledFaces(s: Slot, log: seq<Event>, e: Event)
    requires Faced(s, log) && e.OrderEvent? && e.etype == OrderCancelled && (e.id == s.meId ==> IsOpen(s))
    ensures Faced(AdvanceAll(s, [e]), log + [e])
  {
    hide Said;
    AdvanceOne(s, e);
    if e.id != s.meId {
      SilentFaces(s, log, [e]);
    } else {
      SaidMore(log, e, s.meId, OrderCancelled);
      SaidMore(log, e, s.meId, OrderRejected);
    }
  }

  /** An amendment shows its new price. */
  lemma AmendedFaces(s: Slot, log: seq<Event>, e: Event)
    requires Faced(s, log) && e.OrderEvent? && e.etype == OrderModified && e.kind == Limit && e.remain > 0
    requires e.id == s.meId ==> IsOpen(s) && e.side == s.side
    ensures Faced(AdvanceAll(s, [e]), log + [e])
  {
    hide Said;
    AdvanceOne(s, e);
    if e.id != s.meId {
      SilentFaces(s, log, [e]);
    } else {
      Audit.ClaimedNow(log, e);
      Fills.AmendedOne(log, e, s.meId);
      SaidMore(log, e, s.meId, OrderCancelled);
      SaidMore(log, e, s.meId, OrderRejected);
    }
  }

  lemma NoEvents(s: Slot, log: seq<Event>)
    requires Faced(s, log)
    ensures Faced(AdvanceAll(s, []), log + []) && log + [] == log
  {
    assert log + [] == log;
  }

  lemma CancelFaces(c: Core, id: nat, s: Slot)
    requires InStep(s, c) && Faced(s, c.log)
    ensures var c' := MatchCancel(c, id); Faced(AdvanceAll(s, Emitted(c, c')), c'.log)
  {
    hide InStep; hide Faced; hide AdvanceAll; hide Cancel; hide Live; hide SideHolding; hide Find; hide FindStop;
    var c' := MatchCancel(c, id);
    var evs := Emitted(c, c');
    assert c'.log == c.log + evs;
    if evs == [] {
      NoEvents(s, c.log);
    } else {
      assert evs == [evs[0]];
      if s.meId == id {
        CancelledOpen(c, id, s);
      }
      CancelledFaces(s, c.log, evs[0]);
    }
  }

  /** What is cancelled under a followed id was open. */
  lemma CancelledOpen(c: Core, id: nat, s: Slot)
    requires InStep(s, c) && s.meId == id && |MatchCancel(c, id).log| > |c.log|
    ensures IsOpen(s)
  {
    LiveIsLeft(c.lob, id);
    hide Cancel; hide SideHolding; hide Find; hide Fills.Counted;
  }

  lemma LiveIsOpen(s: Slot, c: Core)
    requires InStep(s, c) && Live(c.lob, s.meId) && Faced(s, c.log) && Audit.Stated(c.lob, c.log)
    ensures IsOpen(s) && SideHolding(c.lob, s.meId) == s.side
    ensures HasId(c.lob.sides.Get(s.side), s.meId)
    ensures Find(c.lob.sides.Get(s.side), s.meId).price == ClaimOf(s, c.log).limit
  {
    LiveIsLeft(c.lob, s.meId);
    LiveHolding(c.lob, s.meId);
    var side := SideHolding(c.lob, s.meId);
    var r := Find(c.lob.sides.Get(side), s.meId);
    var i :| 0 <= i < |c.lob.sides.Get(side)| && c.lob.sides.Get(side)[i] == r;
    assert Audit.Claimed(c.log, s.meId) == Audit.Claim(side, r.price);
  }

  lemma ModifyFaces(c: Core, id: nat, price: int, qty: nat, s: Slot)
    requires InStep(s, c) && Faced(s, c.log) && Audit.Stated(c.lob, c.log)
    ensures var c' := ModifyOrder(c, id, price, qty).0; Faced(AdvanceAll(s, Emitted(c, c')), c'.log)
  {
    if Live(c.lob, id) && s.meId == id {
      LiveIsOpen(s, c);
    }
    hide InStep; hide Faced; hide AdvanceAll; hide Modify; hide Live; hide SideHolding; hide Find; hide Audit.Stated;
    var c' := ModifyOrder(c, id, price, qty).0;
    var evs := Emitted(c, c');
    assert c'.log == c.log + evs;
    if evs == [] {
      NoEvents(s, c.log);
    } else {
      assert evs == [evs[0]];
      AmendedFaces(s, c.log, evs[0]);
    }
  }

  lemma StopFaces(c: Core, kind: OrderType, side: Side, trigger: int, limit: int, qty: nat, expiry: nat, s: Slot)
    requires InStep(s, c) && Faced(s, c.log)
    ensures var c' := SubmitStop(c, kind, side, trigger, limit, qty, expiry).0;
      Faced(AdvanceAll(s, Emitted(c, c')), c'.log)
  {
    var _ := Formed(s, c);
    IssuedIn(s, c);
    hide InStep; hide Faced; hide AdvanceAll; hide FirstFree; hide WellFormed;
    var c' := SubmitStop(c, kind, side, trigger, limit, qty, expiry).0;
    assert c'.log == c.log + Emitted(c, c');
    SilentFaces(s, c.log, Emitted(c, c'));
  }

  lemma IssuedIn(s: Slot, c: Core)
    requires InStep(s, c)
    ensures 0 < s.meId < c.lob.nextId
  {
  }

  /** A slot that was there before the message. */
  lemma StandingFaces(p: Pipe, o: G.Raw, expiry: nat, s: Slot)
    requires InStep(s, p.core) && Faced(s, p.core.log) && Audit.Stated(p.core.lob, p.core.log)
    ensures Faced(AdvanceAll(s, Seen(p, o, expiry)), Routed(p, o, expiry).core.log)
  {
    hide InStep; hide Faced; hide AdvanceAll; hide SubmitStop; hide ModifyOrder; hide MatchCancel; hide Submit;
    hide Emitted; hide Audit.Stated;
    var c, kind, side := p.core, KindOf(o.kind), SideOf(o.side);
    if o.action == G.ACT_NEW && o.kind < 4 {
      var evs := SubmitFaces(c, RequestOf(o), s);
      EmittedIs(c, Submit(c, RequestOf(o)).core, evs);
    } else if o.action == G.ACT_NEW {
      StopFaces(c, kind, side, o.trigger, o.price, o.qty, expiry, s);
    } else if o.action == G.ACT_CANCEL {
      CancelFaces(c, o.target, s);
    } else if o.action == G.ACT_MODIFY {
      ModifyFaces(c, o.target, o.newPrice, o.newQty, s);
    } else {
      NothingEmitted(c, s);
    }
  }

  /** The slot of the order just entered. */
  lemma EnteredFaces(p: Pipe, o: G.Raw, gw: nat, expiry: nat, me: nat)
    requires WellFormed(p.core.lob) && IdsIssued(p.core) && Below(p.core.log, p.core.lob.nextId) && o.action == G.ACT_NEW && o.kind < 4
    requires me == MatchNew(p.core, o, expiry).1 != 0
    ensures Faced(AdvanceAll(NewSlot(o, gw).(meId := me), Seen(p, o, expiry)), Routed(p, o, expiry).core.log)
  {
    hide Faced; hide AdvanceAll; hide Submit; hide Emitted; hide WellFormed; hide IdsIssued; hide Below;
    var r := RequestOf(o);
    var evs := OwnSubmitFaces(p.core, r, NewSlot(o, gw).(meId := me));
    EmittedIs(p.core, Submit(p.core, r).core, evs);
  }

  // ----- what a message keeps

  lemma RoutedSound(p: Pipe, o: G.Raw, expiry: nat)
    requires Audit.Sound(p.core)
    ensures Audit.Sound(Routed(p, o, expiry).core)
  {
    hide Audit.Sound; hide Submit; hide CancelOrder; hide CancelStop; hide ModifyOrder;
    if o.action == G.ACT_NEW && o.kind < 4 {
      Audit.SubmitSound(p.core, RequestOf(o));
    } else if o.action == G.ACT_NEW {
      Audit.StopSound(p.core, StopLaws.StopCall(KindOf(o.kind), SideOf(o.side), o.trigger, o.price, o.qty, expiry));
    } else if o.action == G.ACT_CANCEL {
      Audit.CancelSound(p.core, o.target);
      Audit.CancelStopSound(CancelOrder(p.core, o.target).0, o.target);
    } else if o.action == G.ACT_MODIFY {
      Audit.ModifySound(p.core, o.target, o.newPrice, o.newQty);
    }
  }

  ghost predicate StopIds(c: Core) {
    forall i | 0 <= i < |c.stops| && c.stops[i].active :: c.stops[i].id < c.lob.nextId
  }

  lemma BelowBoth(a: seq<Event>, b: seq<Event>, n: nat, n': nat)
    requires Below(a, n) && Below(b, n') && n <= n'
    ensures Below(a + b, n')
  {
  }

  lemma FewerStops(c: Core, c': Core)
    requires StopIds(c) && OnlyFired(c.stops, c'.stops) && c.lob.nextId <= c'.lob.nextId
    ensures StopIds(c')
  {
  }

  lemma SameStops(c: Core, c': Core)
    requires StopIds(c) && c'.stops == c.stops && c.lob.nextId <= c'.lob.nextId
    ensures StopIds(c')
  {
  }

  /** Submissions report about issued ids only. */
  lemma {:induction false} SubmitBelow(c: Core, r: Request) returns (evs: seq<Event>)
    requires WellFormed(c.lob) && StopIds(c)
    ensures Submit(c, r).core.log == c.log + evs && Below(evs, Submit(c, r).core.lob.nextId)
    decreases Active(c.stops), 1, 0
  {
    hide Execute; hide Events; hide Below; hide WellFormed; hide StopIds;
    ExecuteBelow(c, r);
    LogOf(c, r);
    ExecuteStops(c, r);
    ExecuteKeeps(c, r);
    SubmitIssues(c, r);
    evs := Events(c, r);
    var e := Execute(c, r);
    SameStops(c, e.core);
    if e.traded && e.core.lastPrice != 0 {
      var more := ScanBelow(e.core, e.core.lastPrice, 0);
      ScanNext(e.core, e.core.lastPrice, 0);
      assert Submit(c, r).core == Scan(e.core, e.core.lastPrice, 0);
      BelowBoth(evs, more, e.core.lob.nextId, Submit(c, r).core.lob.nextId);
      evs := evs + more;
    }
  }

  lemma {:induction false} ScanBelow(c: Core, price: int, i: nat) returns (evs: seq<Event>)
    requires WellFormed(c.lob) && StopIds(c) && i <= |c.stops|
    ensures Scan(c, price, i).log == c.log + evs && Below(evs, Scan(c, price, i).lob.nextId)
    decreases Active(c.stops), 0, |c.stops| - i
  {
    hide Active; hide Reentry; hide Below; hide WellFormed;
    if i == |c.stops| {
      evs := [];
      NoneBelow(c.lob.nextId);
    } else if Triggered(c.stops[i], price) {
      FireCounts(c.stops, i);
      var st, f, r := c.stops[i], Fire(c, i), Reentry(c.stops[i]);
      var fired := [OrderEvent(StopTriggered, st.id, st.side, st.kind, st.trigger, st.qty, st.qty, 0)];
      OneBelow(fired, c.lob.nextId);
      assert StopIds(f);
      hide StopIds;
      var own := SubmitBelow(f, r);
      SubmitNext(f, r);
      SubmitQuiet(f, r);
      var c1 := Submit(f, r).core;
      FewerStops(f, c1);
      var more := ScanBelow(c1, price, i + 1);
      ScanNext(c1, price, i + 1);
      BelowBoth(fired, own, c.lob.nextId, c1.lob.nextId);
      BelowBoth(fired + own, more, c1.lob.nextId, Scan(c1, price, i + 1).lob.nextId);
      evs := fired + own + more;
    } else {
      evs := ScanBelow(c, price, i + 1);
    }
  }

  lemma NoneBelow(n: nat)
    ensures Below([], n)
  {
  }

  lemma OneBelow(evs: seq<Event>, n: nat)
    requires |evs| == 1 && evs[0].OrderEvent? && evs[0].id < n
    ensures Below(evs, n)
  {
  }

  lemma ExecuteBelow(c: Core, r: Request)
    requires WellFormed(c.lob)
    ensures Below(Events(c, r), Execute(c, r).core.lob.nextId)
  {
    ExecuteLog(c, r);
    SubmitIssues(c, r);
    WellFormedNext(c.lob);
    var a := Entry(c, r);
    hide WellFormed; hide Execute; hide Admissible; hide Trades; hide Add; hide FilledQty;
    TradesAre(a.fills, c.tradeSeq, a.id, r.side);
  }

  lemma StopBelow(c: Core, kind: OrderType, side: Side, trigger: int, limit: int, qty: nat, expiry: nat)
    requires 0 < c.lob.nextId && Below(c.log, c.lob.nextId)
    ensures var c' := SubmitStop(c, kind, side, trigger, limit, qty, expiry).0; Below(c'.log, c'.lob.nextId)
  {
    hide FirstFree;
  }

  lemma CancelBelow(c: Core, id: nat)
    requires WellFormed(c.lob) && StopIds(c) && Below(c.log, c.lob.nextId)
    ensures var c' := MatchCancel(c, id); Below(c'.log, c'.lob.nextId)
  {
    LiveIssued(c.lob, id);
    CancelNewcomers(c.lob, id);
    hide WellFormed; hide Cancel; hide SideHolding; hide Find; hide Live;
  }

  lemma ModifyBelow(c: Core, id: nat, price: int, qty: nat)
    requires WellFormed(c.lob) && Below(c.log, c.lob.nextId)
    ensures var c' := ModifyOrder(c, id, price, qty).0; Below(c'.log, c'.lob.nextId)
  {
    LiveIssued(c.lob, id);
    ModifyNewcomers(c.lob, id, price, qty);
    hide WellFormed; hide Modify; hide SideHolding; hide Find; hide Live;
  }

  lemma RoutedBelow(p: Pipe, o: G.Raw, expiry: nat)
    requires WellFormed(p.core.lob) && IdsIssued(p.core) && Below(p.core.log, p.core.lob.nextId)
    ensures Below(Routed(p, o, expiry).core.log, Routed(p, o, expiry).core.lob.nextId)
  {
    WellFormedNext(p.core.lob);
    assert StopIds(p.core);
    hide WellFormed; hide Submit; hide SubmitStop; hide MatchCancel; hide ModifyOrder; hide IdsIssued; hide StopIds;
    hide Below;
    var c := p.core;
    if o.action == G.ACT_NEW && o.kind < 4 {
      var evs := SubmitBelow(c, RequestOf(o));
      SubmitNext(c, RequestOf(o));
      BelowBoth(c.log, evs, c.lob.nextId, Submit(c, RequestOf(o)).core.lob.nextId);
    } else if o.action == G.ACT_NEW {
      StopBelow(c, KindOf(o.kind), SideOf(o.side), o.trigger, o.price, o.qty, expiry);
    } else if o.action == G.ACT_CANCEL {
      CancelBelow(c, o.target);
    } else if o.action == G.ACT_MODIFY {
      ModifyBelow(c, o.target, o.newPrice, o.newQty);
    }
  }

  lemma LiveIssued(b: Lob, id: nat)
    requires WellFormed(b)
    ensures Live(b, id) ==> id < b.nextId
  {
  }

  /** The invariant of what slots show. */
  ghost predicate Faces(b: Bridge) {
    && Audit.Sound(b.pipe.core) && Below(b.pipe.core.log, b.pipe.core.lob.nextId)
    && forall i | 0 <= i < |b.reg.orders| && Followed(b.reg.orders[i]) :: Faced(b.reg.orders[i], b.pipe.core.log)
  }

  /** Every followed slot shows what its order announced, whatever stops a message fires. */
  lemma AcceptFaces(b: Bridge, o: G.Raw, gw: nat, expiry: nat, riskOk: bool, last: nat)
    requires BridgeSpec.Inv(b, last) && last < gw && Faces(b)
    ensures Faces(Accept(b, o, gw, expiry, riskOk, Staged(b.pipe, o, expiry, riskOk)))
  {
    hide InStep; hide AdvanceAll; hide OnAll; hide InverseOf; hide WellFormed; hide Routed; hide Seen; hide Passes;
    hide MatchNew; hide Register; hide Bind; hide RejectUntouched; hide Issued; hide IdsIssued; hide SettleAll;
    hide Audit.Sound; hide Below; hide Faced;
    var p, c := b.pipe, b.pipe.core;
    var evs := Staged(p, o, expiry, riskOk);
    var p' := Handle(p, o, expiry, riskOk, evs);
    var r1, me := Register(b.reg, o, gw), NewId(p.owners, p'.owners);
    RegisterKeeps(b.reg, o, gw, last, c);
    RoutedMoves(p, o, expiry);
    RoutedSound(p, o, expiry);
    RoutedBelow(p, o, expiry);
    SoundStated(c);
    BindKeeps(r1, o, gw, me, c.lob.nextId, p'.core.lob.nextId);
    var r2 := Bind(r1, o, gw, me);
    OnAllIsPointwise(r2, evs);
    var r3 := OnAll(r2, evs);
    OnAllMaps(r2, evs);
    forall i | 0 <= i < |r2.orders| && Followed(r2.orders[i])
      ensures Faced(AdvanceAll(r2.orders[i], evs), p'.core.log)
      ensures Tracked(r3, o, gw) && i == gw - r3.base - 1 ==> r3.orders[i].touched
    {
      NothingEmitted(c, r2.orders[i]);
      if Tracked(r1, o, gw) && i == gw - r1.base - 1 {
        EnteredFaces(p, o, gw, expiry, me);
        EnteredAgrees(p, o, gw, expiry, me);
      } else {
        StreamLaws.RegisteredSlot(b.reg, o, gw, me, i);
        StandingFaces(p, o, expiry, r2.orders[i]);
      }
    }
    StreamLaws.RejectIds(r3, o, gw);
    forall i | 0 <= i < |r2.orders| && Followed(RejectUntouched(r3, o, gw).orders[i])
      ensures Faced(RejectUntouched(r3, o, gw).orders[i], p'.core.log)
    {
      AdvanceSame(r2.orders[i], evs);
      RejectSlot(r3, o, gw, i);
    }
  }

  lemma SoundStated(c: Core)
    requires Audit.Sound(c)
    ensures Audit.Stated(c.lob, c.log)
  {
  }

  lemma RejectSlot(r: Reg, o: G.Raw, gw: nat, i: nat)
    requires i < |r.orders|
    ensures var r' := RejectUntouched(r, o, gw);
      && |r'.orders| == |r.orders| && (Mapped(r'.orders[i]) <==> Mapped(r.orders[i])) && r'.orders[i].kind == r.orders[i].kind
      && (!(Tracked(r, o, gw) && i == gw - r.base - 1) || r.orders[i].touched ==> r'.orders[i] == r.orders[i])
  {
  }

  /** What an open slot shows of a resting order. */
  lemma FaceTells(b: Bridge, last: nat, i: nat)
    requires BridgeSpec.Inv(b, last) && Faces(b) && i < |b.reg.orders| && Followed(b.reg.orders[i])
    requires Live(b.pipe.core.lob, b.reg.orders[i].meId)
    ensures var s, lob := b.reg.orders[i], b.pipe.core.lob;
      && (s.status == SlotStatus.Partial <==> s.filled > 0) && s.status in {SlotStatus.Open, SlotStatus.Partial}
      && HasId(lob.sides.Get(s.side), s.meId)
      && Find(lob.sides.Get(s.side), s.meId).price
         == (if s.kind != Market || Fills.Amended(b.pipe.core.log, s.meId) then s.price
             else if s.side == Bid then 0x7FFF_FFFF_FFFF_FFFF else 1)
  {
    var s := b.reg.orders[i];
    hide BridgeSpec.Inv;
    InvSlot(b, last, i);
    hide InStep; hide Audit.Sound;
    SoundStated(b.pipe.core);
    assert Faced(s, b.pipe.core.log);
    LiveIsOpen(s, b.pipe.core);
  }

  lemma InvSlot(b: Bridge, last: nat, i: nat)
    requires BridgeSpec.Inv(b, last) && i < |b.reg.orders| && Followed(b.reg.orders[i])
    ensures InStep(b.reg.orders[i], b.pipe.core)
  {
  }

  /** What a listener who heard everything knows of an order from the last message about it. */
  lemma ListenerKnows(b: Bridge, last: nat, i: nat)
    requires BridgeSpec.Inv(b, last) && Faces(b) && StreamLaws.AllTold(b.reg)
    requires i < |b.reg.orders| && Followed(b.reg.orders[i])
    ensures var s, lob, log := b.reg.orders[i], b.pipe.core.lob, b.pipe.core.log;
      var heard := StreamLaws.LastAbout(b.reg.published, s.orderId);
      && heard.Heard? && heard.m.OrderMsg?
      && heard.m.orderId == s.orderId && heard.m.account == s.account
      && heard.m.filled == Fills.Traded(log, s.meId)
      && (if Live(lob, s.meId) then
            && heard.m.status == (if heard.m.filled > 0 then SlotStatus.Partial else SlotStatus.Open)
            && HasId(lob.sides.Get(heard.m.side), s.meId)
            && var r := Find(lob.sides.Get(heard.m.side), s.meId);
               heard.m.remain == r.qty && (heard.m.kind != Market || Fills.Amended(log, s.meId) ==> heard.m.price == r.price)
          else
            && heard.m.status == (if Said(log, s.meId, OrderCancelled) then SlotStatus.Cancelled
                                  else if Said(log, s.meId, OrderRejected) then SlotStatus.Rejected else SlotStatus.Filled)
            && (heard.m.status != SlotStatus.Rejected ==> heard.m.remain == 0))
  {
    var s := b.reg.orders[i];
    InvMapped(b, last, i);
    assert StreamLaws.Told(b.reg.published, s);
    RegistryTells(b, last, i);
    hide BridgeSpec.Inv; hide Faces; hide Find; hide StreamLaws.LastAbout; hide StreamLaws.AllTold; hide Live; hide HasId;
    hide SideHolding; hide Fills.Traded; hide Fills.Amended;
    if Live(b.pipe.core.lob, s.meId) {
      FaceTells(b, last, i);
      OneSide(b, last, s.meId, s.side);
    } else {
      ClosedSlot(b, last, i);
    }
  }

  lemma InvMapped(b: Bridge, last: nat, i: nat)
    requires i < |b.reg.orders| && Followed(b.reg.orders[i])
    ensures b.reg.orders[i].orderId != 0
  {
  }

  lemma OneSide(b: Bridge, last: nat, id: nat, side: Side)
    requires BridgeSpec.Inv(b, last) && HasId(b.pipe.core.lob.sides.Get(side), id)
    ensures SideHolding(b.pipe.core.lob, id) == side
  {
  }

  lemma ClosedSlot(b: Bridge, last: nat, i: nat)
    requires BridgeSpec.Inv(b, last) && i < |b.reg.orders| && Followed(b.reg.orders[i])
    requires !Live(b.pipe.core.lob, b.reg.orders[i].meId)
    ensures b.reg.orders[i].status in {SlotStatus.Filled, SlotStatus.Cancelled, SlotStatus.Rejected}
  {
    InvSlot(b, last, i);
    hide BridgeSpec.Inv;
    LiveIsLeft(b.pipe.core.lob, b.reg.orders[i].meId);
  }

  /** Over every run in which no amendment loses an order, a listener is up to date after every message. */
  lemma {:induction false} RunKnows(b: Bridge, last: nat, ms: seq<Inbound>)
    requires BridgeSpec.Inv(b, last) && Faces(b) && StreamLaws.AllTold(b.reg) && Orderly(b, last, ms)
    ensures var b' := BridgeSpec.RunAll(b, ms);
      BridgeSpec.Inv(b', LastId(last, ms)) && Faces(b') && StreamLaws.AllTold(b'.reg)
    decreases |ms|
  {
    hide BridgeSpec.Inv; hide Faces; hide StreamLaws.AllTold; hide Loses; hide Accept; hide Staged;
    if ms != [] {
      var m := ms[0];
      AcceptKeeps(b, m.order, m.gw, m.expiry, m.riskOk, last);
      AcceptFaces(b, m.order, m.gw, m.expiry, m.riskOk, last);
      StreamLaws.AcceptTells(b, m.order, m.gw, m.expiry, m.riskOk, last);
      RunKnows(BridgeSpec.After(b, m), m.gw, ms[1..]);
      assert LastId(m.gw, ms[1..]) == LastId(last, ms);
    }
  }

  lemma OpeningKnows(base: nat, stops: seq<StopOrder>, seats: seq<Seat>)
    ensures Faces(BridgeSpec.Opening(base, stops, seats)) && StreamLaws.AllTold(BridgeSpec.Opening(base, stops, seats).reg)
  {
    OpeningSettled(stops, seats);
  }

  /** What never changes about an order, as its message named it. */
  ghost predicate Identifies(s: Slot, o: G.Raw, gw: nat) {
    && s.orderId == gw && s.client == o.client && s.account == o.account && s.original == o.qty && s.trigger == o.trigger
    && s.side == (if o.side == 0 then Bid else Ask)
    && s.kind == (match o.kind case 0 => Limit case 1 => Market case 2 => Ioc case 3 => Fok case 4 => Stop case _ => StopLimit)
  }

  /** A new order's slot carries what its message named, and no message changes that of another. */
  lemma AcceptIdentifies(b: Bridge, o: G.Raw, gw: nat, expiry: nat, riskOk: bool, last: nat)
    requires BridgeSpec.Inv(b, last) && last < gw
    ensures var r, r' := b.reg, Accept(b, o, gw, expiry, riskOk, Staged(b.pipe, o, expiry, riskOk)).reg;
      && r'.base == r.base && |r'.orders| == |r.orders| == 65536
      && (o.action == 1 && r.base < gw <= r.base + 65536 ==> Identifies(r'.orders[gw - r.base - 1], o, gw))
      && forall i | 0 <= i < |r.orders| && !(o.action == 1 && i == gw - r.base - 1) :: SameOrder(r.orders[i], r'.orders[i])
  {
    var me := AcceptParts(b, o, gw, expiry, riskOk, last);
    hide BridgeSpec.Inv; hide Accept; hide AdvanceAll; hide OnAll; hide InverseOf; hide Bind; hide Register;
    hide RejectUntouched; hide SameOrder; hide Identifies; hide Staged; hide NewSlot;
    var evs := Staged(b.pipe, o, expiry, riskOk);
    var r2 := Bind(Register(b.reg, o, gw), o, gw, me);
    InverseSizes(r2);
    OnAllIsPointwise(r2, evs);
    var r3 := OnAll(r2, evs);
    var r4 := RejectUntouched(r3, o, gw);
    forall i | 0 <= i < |r2.orders|
      ensures |r4.orders| == |r2.orders| && SameOrder(r2.orders[i], r4.orders[i])
    {
      AdvanceSame(r2.orders[i], evs);
      SameItself(r2.orders[i]);
      RejectSame(r3, o, gw, i);
      SameTwice(r2.orders[i], r3.orders[i], r4.orders[i]);
    }
    RejectBase(r3, o, gw);
    if o.action == 1 && b.reg.base < gw <= b.reg.base + 65536 {
      var i := gw - b.reg.base - 1;
      NewIdentifies(o, gw, r2.orders[i].meId, r4.orders[i]);
    }
  }

  /** How the registry moves: the new slot, the replay, and the synthetic rejection. */
  lemma AcceptParts(b: Bridge, o: G.Raw, gw: nat, expiry: nat, riskOk: bool, last: nat) returns (me: nat)
    requires BridgeSpec.Inv(b, last) && last < gw
    ensures var r2, evs := Bind(Register(b.reg, o, gw), o, gw, me), Staged(b.pipe, o, expiry, riskOk);
      && Inverse(r2) && |r2.orders| == |b.reg.orders| && r2.base == b.reg.base
      && Accept(b, o, gw, expiry, riskOk, evs).reg == RejectUntouched(OnAll(r2, evs), o, gw)
      && forall i | 0 <= i < |r2.orders| ::
           r2.orders[i] == if Tracked(b.reg, o, gw) && i == gw - b.reg.base - 1
                           then NewSlot(o, gw).(meId := if 1 <= me <= REGISTRY_CAP then me else 0) else b.reg.orders[i]
  {
    hide InStep; hide OnAll; hide InverseOf; hide WellFormed; hide Routed; hide Seen; hide Passes; hide MatchNew;
    hide Issued; hide IdsIssued; hide SettleAll; hide AllAgree; hide RejectUntouched; hide Bind; hide Register;
    var p, c := b.pipe, b.pipe.core;
    var p' := Handle(p, o, expiry, riskOk, Staged(p, o, expiry, riskOk));
    me := NewId(p.owners, p'.owners);
    var r1 := Register(b.reg, o, gw);
    RegisterKeeps(b.reg, o, gw, last, c);
    RoutedMoves(p, o, expiry);
    BindKeeps(r1, o, gw, me, c.lob.nextId, p'.core.lob.nextId);
    forall i | 0 <= i < |b.reg.orders| && !(Tracked(b.reg, o, gw) && i == gw - b.reg.base - 1)
      ensures Bind(r1, o, gw, me).orders[i] == b.reg.orders[i]
    {
      InvInverse(b, last);
      StreamLaws.RegisteredSlot(b.reg, o, gw, me, i);
    }
  }

  lemma InvInverse(b: Bridge, last: nat)
    requires BridgeSpec.Inv(b, last)
    ensures Inverse(b.reg)
  {
  }

  lemma SameItself(s: Slot)
    ensures SameOrder(s, s)
  {
  }

  lemma SameTwice(s: Slot, t: Slot, u: Slot)
    requires SameOrder(s, t) && SameOrder(t, u)
    ensures SameOrder(s, u)
  {
  }

  lemma RejectSame(r: Reg, o: G.Raw, gw: nat, i: nat)
    requires i < |r.orders|
    ensures var r' := RejectUntouched(r, o, gw); |r'.orders| == |r.orders| && SameOrder(r.orders[i], r'.orders[i])
  {
  }

  lemma RejectBase(r: Reg, o: G.Raw, gw: nat)
    ensures RejectUntouched(r, o, gw).base == r.base
  {
  }

  lemma NewIdentifies(o: G.Raw, gw: nat, me: nat, s: Slot)
    requires SameOrder(NewSlot(o, gw).(meId := me), s)
    ensures Identifies(s, o, gw)
  {
  }
}
