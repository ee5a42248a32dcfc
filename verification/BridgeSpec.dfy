/**
 What bridge_submit does once the gateway has accepted a message (bridge/bridge.c): register the order, run the
 pipeline, map the engine's id, replay the staged events. And the result it is for: the registry says of every
 order what the book says.
 */
module BridgeSpec {
  import opened Types
  import opened BookSpec
  import PriceTime
  import opened BookLaws
  import opened EngineSpec
  import opened EngineLaws
  import opened PipelineSpec
  import opened PipelineLaws
  import opened Registry
  import opened RegistryLaws
  import opened CascadeLaws
  import opened FillLaws
  import G = GatewaySpec

  datatype Bridge = Bridge(pipe: Pipe, reg: Reg)

  /** A new order that has a place in the registry. */
  predicate Tracked(r: Reg, o: G.Raw, gw: nat) {
    o.action == G.ACT_NEW && r.base < gw && gw - r.base - 1 < |r.orders|
  }

  function NewSlot(o: G.Raw, gw: nat): Slot {
    Slot(gw, 0, o.client, o.account, KindOf(o.kind), SideOf(o.side), o.price, o.trigger, o.qty, o.qty, 0,
         SlotStatus.Open, false)
  }

  function Register(r: Reg, o: G.Raw, gw: nat): Reg {
    if Tracked(r, o, gw) then r.(orders := r.orders[gw - r.base - 1 := NewSlot(o, gw)]) else r
  }

  /** Maps the engine's id to the order just registered. */
  function Bind(r: Reg, o: G.Raw, gw: nat, me: nat): Reg {
    if Tracked(r, o, gw) && 1 <= me <= |r.meToGw| then
      var i := gw - r.base - 1;
      r.(orders := r.orders[i := r.orders[i].(meId := me)], meToGw := r.meToGw[me - 1 := gw])
    else r
  }

  /** The order never reached the engine: it is shown as rejected. */
  function RejectUntouched(r: Reg, o: G.Raw, gw: nat): Reg {
    if Tracked(r, o, gw) && r.orders[gw - r.base - 1].orderId == gw && !r.orders[gw - r.base - 1].touched then
      var i := gw - r.base - 1;
      var s := r.orders[i].(status := SlotStatus.Rejected, touched := true);
      Publish(r.(orders := r.orders[i := s]), Snapshot(s).(filled := 0))
    else r
  }

  /** The id remembered during the step, 0 when there was none. */
  function NewId(before: seq<Owner>, after: seq<Owner>): nat {
    if |after| > |before| then after[|after| - 1].id else 0
  }

  /** bridge_submit behind the gateway's acceptance under id gw; `seen` is what was staged. */
  function Accept(b: Bridge, o: G.Raw, gw: nat, expiry: nat, riskOk: bool, seen: seq<Event>): Bridge {
    var r1 := Register(b.reg, o, gw);
    var pipe := Handle(b.pipe, o, expiry, riskOk, seen);
    var r2 := Bind(r1, o, gw, NewId(b.pipe.owners, pipe.owners));
    Bridge(pipe, RejectUntouched(OnAll(r2, seen), o, gw))
  }

  // ----- the invariant

  predicate Dormant(s: Slot) {
    s.kind in {Stop, StopLimit}
  }

  /** An order whose slot takes part in the agreement: it has an engine id and is not a stop. */
  predicate Followed(s: Slot) {
    Mapped(s) && !Dormant(s)
  }

  /** Every mapped order that is not a stop agrees with the book, and no dormant order waits under its id. */
  ghost predicate AllAgree(orders: seq<Slot>, c: Core) {
    forall i | 0 <= i < |orders| && Followed(orders[i]) :: InStep(orders[i], c)
  }

  /** No id that has yet to be issued is in use on either side. */
  ghost predicate Issued(r: Reg, gw: nat, nextId: nat) {
    && (forall i | 0 <= i < |r.orders| :: r.orders[i].orderId <= gw)
    && (forall m | 0 <= m < |r.meToGw| && r.meToGw[m] != 0 :: m + 1 < nextId)
  }

  ghost predicate Inv(b: Bridge, gw: nat) {
    && WellFormed(b.pipe.core.lob) && IdsIssued(b.pipe.core)
    && Inverse(b.reg) && Issued(b.reg, gw, b.pipe.core.lob.nextId)
    && AllAgree(b.reg.orders, b.pipe.core)
  }

  // ----- the parts of a step

  lemma RegisterKeeps(r: Reg, o: G.Raw, gw: nat, last: nat, c: Core)
    requires Inverse(r) && Issued(r, last, c.lob.nextId) && last < gw && AllAgree(r.orders, c)
    ensures var r1 := Register(r, o, gw);
      && Inverse(r1) && Issued(r1, gw, c.lob.nextId) && AllAgree(r1.orders, c)
      && |r1.orders| == |r.orders| && r1.base == r.base && (!Tracked(r, o, gw) ==> r1 == r)
      && (Tracked(r, o, gw) ==> r1.orders[gw - r.base - 1] == NewSlot(o, gw))
  {
    hide InStep;
    if Tracked(r, o, gw) {
      var i := gw - r.base - 1;
      assert r.orders[i].orderId == 0;
    }
  }

  /** Mapping a new engine id. */
  lemma BindKeeps(r: Reg, o: G.Raw, gw: nat, me: nat, nextId: nat, nextId': nat)
    requires Inverse(r) && Issued(r, gw, nextId) && nextId <= nextId' && (me != 0 ==> nextId <= me < nextId')
    requires Tracked(r, o, gw) ==> r.orders[gw - r.base - 1] == NewSlot(o, gw)
    ensures var r2 := Bind(r, o, gw, me);
      && Inverse(r2) && Issued(r2, gw, nextId') && |r2.orders| == |r.orders| && r2.base == r.base
      && forall i | 0 <= i < |r.orders| :: r2.orders[i] ==
           if Tracked(r, o, gw) && 1 <= me <= REGISTRY_CAP && i == gw - r.base - 1 then NewSlot(o, gw).(meId := me)
           else r.orders[i]
  {
    if Tracked(r, o, gw) && 1 <= me <= |r.meToGw| {
      assert r.meToGw[me - 1] == 0;
      InverseBind(r.base, r.orders, r.meToGw, gw - r.base - 1, me);
    }
    hide InverseOf;
  }

  lemma InverseBind(base: nat, orders: seq<Slot>, meToGw: seq<nat>, i: nat, me: nat)
    requires InverseOf(base, orders, meToGw) && i < |orders| && 1 <= me <= |meToGw| && meToGw[me - 1] == 0
    requires orders[i].orderId == base + i + 1 && orders[i].meId == 0
    ensures InverseOf(base, orders[i := orders[i].(meId := me)], meToGw[me - 1 := base + i + 1])
  {
  }

  lemma RejectKeeps(r: Reg, o: G.Raw, gw: nat, c: Core)
    requires Inverse(r) && Issued(r, gw, c.lob.nextId) && AllAgree(r.orders, c)
    requires Tracked(r, o, gw) && Followed(r.orders[gw - r.base - 1]) ==> r.orders[gw - r.base - 1].touched
    ensures var r' := RejectUntouched(r, o, gw);
      Inverse(r') && Issued(r', gw, c.lob.nextId) && AllAgree(r'.orders, c)
  {
    hide InverseOf; hide InStep;
    if Tracked(r, o, gw) {
      var i := gw - r.base - 1;
      SetSlot(r, i, r.orders[i].(status := SlotStatus.Rejected, touched := true), RejectUntouched(r, o, gw).published);
    }
  }

  /** Replaying the staged events, when every single slot is known to come out right. */
  lemma ReplayKeeps(r: Reg, evs: seq<Event>, gw: nat, c: Core)
    requires Inverse(r) && Issued(r, gw, c.lob.nextId)
    requires forall i | 0 <= i < |r.orders| && Followed(r.orders[i]) :: InStep(AdvanceAll(r.orders[i], evs), c)
    ensures var r' := OnAll(r, evs);
      && Inverse(r') && Issued(r', gw, c.lob.nextId) && AllAgree(r'.orders, c)
      && r'.base == r.base && |r'.orders| == |r.orders|
      && forall i | 0 <= i < |r.orders| ::
           r'.orders[i] == if Mapped(r.orders[i]) then AdvanceAll(r.orders[i], evs) else r.orders[i]
  {
    hide InverseOf; hide InStep; hide OnAll; hide AdvanceAll;
    OnAllIsPointwise(r, evs);
    forall i | 0 <= i < |r.orders|
      ensures SameOrder(r.orders[i], AdvanceAll(r.orders[i], evs))
    {
      AdvanceSame(r.orders[i], evs);
    }
  }

  // ----- one submission

  /** What is staged during a step in which the engine's ring drops nothing. */
  function Staged(p: Pipe, o: G.Raw, expiry: nat, riskOk: bool): seq<Event> {
    if Passes(p, o, riskOk) then Seen(p, o, expiry) else []
  }

  /** The amended order is one of those followed, and is lost at the level limit. */
  predicate Loses(b: Bridge, o: G.Raw, riskOk: bool) {
    && o.action == G.ACT_MODIFY && Passes(b.pipe, o, riskOk)
    && Lost(b.pipe.core.lob, o.target, o.newPrice, o.newQty)
    && exists i | 0 <= i < |b.reg.orders| :: Followed(b.reg.orders[i]) && b.reg.orders[i].meId == o.target
  }

  lemma StopInStep(c: Core, kind: OrderType, side: Side, trigger: int, limit: int, qty: nat, expiry: nat, s: Slot)
    requires InStep(s, c)
    ensures var c' := SubmitStop(c, kind, side, trigger, limit, qty, expiry).0;
      InStep(AdvanceAll(s, Emitted(c, c')), c')
  {
    hide WellFormed; hide Agrees; hide Left; hide FirstFree; hide AdvanceAll; hide Counted;
    StopAgrees(c, kind, side, trigger, limit, qty, expiry, s);
    LaterFormed(c.lob);
    var c' := SubmitStop(c, kind, side, trigger, limit, qty, expiry).0;
    AdvanceSame(s, Emitted(c, c'));
    assert c'.log == c.log + Emitted(c, c');
    CountSilent(s, c.log, Emitted(c, c'));
  }

  lemma CancelInStep(c: Core, id: nat, s: Slot)
    requires InStep(s, c)
    ensures var c' := MatchCancel(c, id); InStep(AdvanceAll(s, Emitted(c, c')), c')
  {
    hide WellFormed; hide Agrees; hide Left; hide FindStop; hide AdvanceAll; hide Cancel; hide Find;
    hide Live; hide SideHolding; hide Counted;
    CancelAgrees(c, id, s);
    CancelKeeps(c.lob, id);
    CancelNewcomers(c.lob, id);
    var c' := MatchCancel(c, id);
    AdvanceSame(s, Emitted(c, c'));
    assert c'.log == c.log + Emitted(c, c');
    CountSilent(s, c.log, Emitted(c, c'));
  }

  lemma ModifyInStepIff(c: Core, id: nat, price: int, qty: nat, s: Slot)
    requires InStep(s, c)
    ensures var c' := ModifyOrder(c, id, price, qty).0;
      InStep(AdvanceAll(s, Emitted(c, c')), c') <==> !(s.meId == id && Lost(c.lob, id, price, qty))
  {
    hide WellFormed; hide Agrees; hide Left; hide AdvanceAll; hide Modify; hide Find; hide Live;
    hide SideHolding; hide Lost; hide Counted;
    ModifyAgreesIff(c, id, price, qty, s);
    ModifyKeeps(c.lob, id, price, qty);
    ModifyNewcomers(c.lob, id, price, qty);
    var c' := ModifyOrder(c, id, price, qty).0;
    AdvanceSame(s, Emitted(c, c'));
    assert c'.log == c.log + Emitted(c, c');
    CountSilent(s, c.log, Emitted(c, c'));
  }

  /** An order that was on the books before the message: its slot comes out right, unless it is lost. */
  lemma StandingIff(p: Pipe, o: G.Raw, expiry: nat, s: Slot)
    requires InStep(s, p.core)
    ensures InStep(AdvanceAll(s, Seen(p, o, expiry)), Routed(p, o, expiry).core)
      <==> !(o.action == G.ACT_MODIFY && s.meId == o.target && Lost(p.core.lob, o.target, o.newPrice, o.newQty))
  {
    hide InStep; hide AdvanceAll; hide Lost; hide SubmitStop; hide ModifyOrder; hide MatchCancel; hide Submit;
    hide Emitted;
    var c, kind, side := p.core, KindOf(o.kind), SideOf(o.side);
    if o.action == G.ACT_NEW && o.kind < 4 {
      var evs := SubmitInStep(c, Request(kind, side, o.price, o.qty), s);
      EmittedIs(c, Submit(c, Request(kind, side, o.price, o.qty)).core, evs);
    } else if o.action == G.ACT_NEW {
      StopInStep(c, kind, side, o.trigger, o.price, o.qty, expiry, s);
    } else if o.action == G.ACT_CANCEL {
      CancelInStep(c, o.target, s);
    } else if o.action == G.ACT_MODIFY {
      ModifyInStepIff(c, o.target, o.newPrice, o.newQty, s);
    } else {
      NothingEmitted(c, s);
    }
  }

  lemma NothingEmitted(c: Core, s: Slot)
    ensures Emitted(c, c) == [] && AdvanceAll(s, []) == s
  {
  }

  /** The order just entered and mapped: its slot comes out right, and not untouched. */
  lemma EnteredAgrees(p: Pipe, o: G.Raw, gw: nat, expiry: nat, me: nat)
    requires WellFormed(p.core.lob) && IdsIssued(p.core) && o.action == G.ACT_NEW && o.kind < 4
    requires me == MatchNew(p.core, o, expiry).1 != 0
    ensures var t := AdvanceAll(NewSlot(o, gw).(meId := me), Seen(p, o, expiry));
      InStep(t, Routed(p, o, expiry).core) && t.touched
  {
    hide InStep; hide AdvanceAll; hide Submit; hide Emitted; hide WellFormed; hide IdsIssued;
    var r := Request(KindOf(o.kind), SideOf(o.side), o.price, o.qty);
    var evs := OwnInStep(p.core, r, NewSlot(o, gw).(meId := me));
    EmittedIs(p.core, Submit(p.core, r).core, evs);
  }

  /** Operations that trade nothing. */
  lemma SilentMoves(c: Core, c': Core)
    requires IdsIssued(c) && c.lob.nextId <= c'.lob.nextId
    requires |c.log| <= |c'.log| && c'.log[..|c.log|] == c.log
    requires forall i | |c.log| <= i < |c'.log| :: c'.log[i].OrderEvent?
    ensures forall x: nat | c'.lob.nextId <= x :: Traded(c'.log, x) == 0
  {
    hide Traded;
    var evs := c'.log[|c.log|..];
    assert c'.log == c.log + evs;
    forall x: nat | c'.lob.nextId <= x
      ensures Traded(c'.log, x) == 0
    {
      TradedConcat(c.log, evs, x);
      NoTrades(evs, x);
    }
  }

  /** How the engine moves on: the book stays well formed, and a remembered id is new. */
  lemma RoutedMoves(p: Pipe, o: G.Raw, expiry: nat)
    requires WellFormed(p.core.lob) && IdsIssued(p.core)
    ensures var p' := Routed(p, o, expiry);
      var me := NewId(p.owners, p'.owners);
      && WellFormed(p'.core.lob) && IdsIssued(p'.core) && p.core.lob.nextId <= p'.core.lob.nextId
      && (me != 0 ==> o.action == G.ACT_NEW && me == MatchNew(p.core, o, expiry).1
                      && p.core.lob.nextId <= me < p'.core.lob.nextId)
  {
    hide Submit; hide WellFormed; hide FirstFree; hide Cancel; hide Modify; hide FindStop; hide Live;
    hide SideHolding; hide Find; hide Traded;
    var c, c' := p.core, Routed(p, o, expiry).core;
    CancelKeeps(c.lob, o.target);
    CancelNewcomers(c.lob, o.target);
    ModifyKeeps(c.lob, o.target, o.newPrice, o.newQty);
    ModifyNewcomers(c.lob, o.target, o.newPrice, o.newQty);
    if o.action == G.ACT_NEW && o.kind < 4 {
      SubmitMoves(c, Request(KindOf(o.kind), SideOf(o.side), o.price, o.qty));
    } else {
      LaterFormed(c.lob);
      SilentMoves(c, c');
    }
  }

  /** An order that has its slot already stays in step, unless it is the one lost. */
  lemma SlotKept(b: Bridge, o: G.Raw, expiry: nat, riskOk: bool, s: Slot)
    requires InStep(s, b.pipe.core) && Followed(s) && !Loses(b, o, riskOk)
    requires o.action == G.ACT_MODIFY ==> s in b.reg.orders
    ensures var evs := Staged(b.pipe, o, expiry, riskOk);
      InStep(AdvanceAll(s, evs), Handle(b.pipe, o, expiry, riskOk, evs).core)
  {
    hide InStep; hide AdvanceAll; hide Lost; hide Routed; hide Seen; hide Passes; hide SettleAll; hide Followed;
    NothingEmitted(b.pipe.core, s);
    StandingIff(b.pipe, o, expiry, s);
  }

  /**
   The registry agrees with the book. After every accepted message, whatever stops it fires, each mapped order that
   is not a stop is open in the registry exactly when it rests on the book, and then with the same remaining
   quantity, unless the message amends such an order and loses it.
   */
  lemma AcceptKeeps(b: Bridge, o: G.Raw, gw: nat, expiry: nat, riskOk: bool, last: nat)
    requires Inv(b, last) && last < gw && !Loses(b, o, riskOk)
    ensures Inv(Accept(b, o, gw, expiry, riskOk, Staged(b.pipe, o, expiry, riskOk)), gw)
  {
    hide InStep; hide AdvanceAll; hide OnAll; hide InverseOf; hide WellFormed; hide Routed; hide Seen;
    hide MatchNew; hide Loses; hide Register; hide Bind; hide RejectUntouched; hide Issued; hide IdsIssued;
    var p, c := b.pipe, b.pipe.core;
    var evs := Staged(p, o, expiry, riskOk);
    var p' := Handle(p, o, expiry, riskOk, evs);
    var r1, me := Register(b.reg, o, gw), NewId(p.owners, p'.owners);
    RegisterKeeps(b.reg, o, gw, last, c);
    RoutedMoves(p, o, expiry);
    BindKeeps(r1, o, gw, me, c.lob.nextId, p'.core.lob.nextId);
    var r2 := Bind(r1, o, gw, me);
    forall i | 0 <= i < |r2.orders| && Followed(r2.orders[i])
      ensures InStep(AdvanceAll(r2.orders[i], evs), p'.core)
      ensures Tracked(b.reg, o, gw) && i == gw - r1.base - 1 ==> AdvanceAll(r2.orders[i], evs).touched
    {
      if Tracked(r1, o, gw) && i == gw - r1.base - 1 {
        EnteredAgrees(p, o, gw, expiry, me);
      } else {
        SlotKept(b, o, expiry, riskOk, r2.orders[i]);
      }
    }
    ReplayKeeps(r2, evs, gw, p'.core);
    if Tracked(r2, o, gw) {
      var s := r2.orders[gw - r2.base - 1];
      AdvanceSame(s, evs);
      assert Followed(s) ==> AdvanceAll(s, evs).touched;
    }
    RejectKeeps(OnAll(r2, evs), o, gw, p'.core);
  }

  /** An amendment that loses a followed order leaves its slot behind. */
  lemma AcceptLoses(b: Bridge, o: G.Raw, gw: nat, expiry: nat, riskOk: bool, last: nat)
    requires Inv(b, last) && Loses(b, o, riskOk)
    ensures !Inv(Accept(b, o, gw, expiry, riskOk, Staged(b.pipe, o, expiry, riskOk)), gw)
  {
    hide InStep; hide AdvanceAll; hide OnAll; hide InverseOf; hide WellFormed; hide Routed; hide Seen; hide Lost;
    hide Issued; hide IdsIssued; hide SettleAll; hide Passes;
    var i :| 0 <= i < |b.reg.orders| && Followed(b.reg.orders[i]) && b.reg.orders[i].meId == o.target;
    var evs := Staged(b.pipe, o, expiry, riskOk);
    StandingIff(b.pipe, o, expiry, b.reg.orders[i]);
    OnAllIsPointwise(b.reg, evs);
    AdvanceSame(b.reg.orders[i], evs);
  }

  /** So agreement is kept by every accepted message but exactly those that lose a followed order. */
  lemma AcceptKeepsIff(b: Bridge, o: G.Raw, gw: nat, expiry: nat, riskOk: bool, last: nat)
    requires Inv(b, last) && last < gw
    ensures Inv(Accept(b, o, gw, expiry, riskOk, Staged(b.pipe, o, expiry, riskOk)), gw) <==> !Loses(b, o, riskOk)
  {
    hide Inv; hide Loses; hide Accept; hide Staged;
    if Loses(b, o, riskOk) {
      AcceptLoses(b, o, gw, expiry, riskOk, last);
    } else {
      AcceptKeeps(b, o, gw, expiry, riskOk, last);
    }
  }

  /** Ids the gateway has issued in the meantime do no harm. */
  lemma InvLater(b: Bridge, last: nat, later: nat)
    requires Inv(b, last) && last <= later
    ensures Inv(b, later)
  {
    hide AllAgree; hide InverseOf; hide WellFormed; hide IdsIssued;
  }

  // ----- every order on the book is in the registry

  /** Whatever rests has an engine id that leads to a slot. */
  ghost predicate Covered(b: Bridge) {
    forall x: nat | !Dead(b.pipe.core.lob, x) :: 1 <= x <= |b.reg.meToGw| && b.reg.meToGw[x - 1] != 0
  }

  /** There is a place for the new order, for its engine id and for its owner. */
  predicate HasPlace(b: Bridge, o: G.Raw, gw: nat) {
    Tracked(b.reg, o, gw) && |b.pipe.owners| < MAX_OWNERS && b.pipe.core.lob.nextId <= REGISTRY_CAP
  }

  lemma AcceptMaps(b: Bridge, o: G.Raw, gw: nat, expiry: nat, riskOk: bool, seen: seq<Event>)
    requires |b.reg.orders| == |b.reg.meToGw| == REGISTRY_CAP
    ensures var b' := Accept(b, o, gw, expiry, riskOk, seen);
      var me := NewId(b.pipe.owners, b'.pipe.owners);
      b'.reg.meToGw == if Tracked(b.reg, o, gw) && 1 <= me <= REGISTRY_CAP then b.reg.meToGw[me - 1 := gw]
                       else b.reg.meToGw
  {
    hide Handle; hide OnAll;
    var r1 := Register(b.reg, o, gw);
    var me := NewId(b.pipe.owners, Accept(b, o, gw, expiry, riskOk, seen).pipe.owners);
    OnAllMaps(Bind(r1, o, gw, me), seen);
  }

  lemma {:induction false} OnAllMaps(r: Reg, seen: seq<Event>)
    ensures OnAll(r, seen).meToGw == r.meToGw && OnAll(r, seen).base == r.base && |OnAll(r, seen).orders| == |r.orders|
    decreases |seen|
  {
    if seen != [] {
      OnAllMaps(OnEvent(r, seen[0]), seen[1..]);
    }
  }

  lemma InverseSizes(r: Reg)
    requires Inverse(r)
    ensures |r.orders| == |r.meToGw| == REGISTRY_CAP
  {
  }

  function RequestOf(o: G.Raw): Request {
    Request(KindOf(o.kind), SideOf(o.side), o.price, o.qty)
  }

  /** An order rests that the submission brought about under another id: one that a stop turned into. */
  ghost predicate StopBornRests(c: Core, r: Request) {
    var e := Submit(c, r);
    exists x: nat :: c.lob.nextId <= x && x != e.result.id && !Dead(e.core.lob, x)
  }

  /** A new order rests without a place, or one that a stop turned into does. */
  ghost predicate Uncovers(b: Bridge, o: G.Raw, gw: nat, riskOk: bool) {
    && o.action == G.ACT_NEW && o.kind < 4 && Passes(b.pipe, o, riskOk)
    && (StopBornRests(b.pipe.core, RequestOf(o)) || (OwnRests(b.pipe.core, RequestOf(o)) && !HasPlace(b, o, gw)))
  }

  /** An order that fires no stop brings about no other. */
  lemma UnfiredBearsNone(c: Core, r: Request)
    requires WellFormed(c.lob) && FiresNothing(c, r)
    ensures !StopBornRests(c, r)
  {
    hide WellFormed; hide Execute; hide FiresNothing; hide Dead;
    SubmitIsExecute(c, r);
    forall x: nat | c.lob.nextId <= x && x != Execute(c, r).result.id
      ensures Dead(Execute(c, r).core.lob, x)
    {
      LateIsDead(c, r, x);
    }
  }

  /** A message that submits nothing to the book brings nothing new onto it. */
  lemma OthersCover(p: Pipe, o: G.Raw, expiry: nat, x: nat)
    requires !(o.action == G.ACT_NEW && o.kind < 4) && Dead(p.core.lob, x) && x != 0
    ensures Dead(Routed(p, o, expiry).core.lob, x)
  {
    hide Dead; hide FirstFree; hide Cancel; hide Modify; hide FindStop; hide Live; hide SideHolding; hide Find;
    if o.action == G.ACT_NEW {
      StopCovers(p, o, expiry);
    } else {
      CancelNewcomers(p.core.lob, o.target);
      ModifyNewcomers(p.core.lob, o.target, o.newPrice, o.newQty);
    }
  }

  /** Everything on the book keeps its slot, except when a new order finds no place or a stop turns into one. */
  lemma AcceptCoversIff(b: Bridge, o: G.Raw, gw: nat, expiry: nat, riskOk: bool, last: nat)
    requires Inv(b, last) && last < gw && Covered(b)
    ensures Covered(Accept(b, o, gw, expiry, riskOk, Staged(b.pipe, o, expiry, riskOk))) <==> !Uncovers(b, o, gw, riskOk)
  {
    hide Dead; hide Submit; hide WellFormed; hide InverseOf; hide AllAgree; hide IdsIssued; hide SettleAll;
    hide OnAll; hide Register; hide Bind; hide RejectUntouched; hide Seen;
    var c := b.pipe.core;
    var b' := Accept(b, o, gw, expiry, riskOk, Staged(b.pipe, o, expiry, riskOk));
    InverseSizes(b.reg);
    AcceptMaps(b, o, gw, expiry, riskOk, Staged(b.pipe, o, expiry, riskOk));
    if !Passes(b.pipe, o, riskOk) {
    } else if o.action == G.ACT_NEW && o.kind < 4 {
      SubmitMoves(c, RequestOf(o));
      forall x: nat | x < c.lob.nextId && Dead(c.lob, x)
        ensures Dead(b'.pipe.core.lob, x)
      {
        SubmitDead(c, RequestOf(o), x);
      }
      ZeroIsDead(b'.pipe.core.lob);
      WellFormedNext(c.lob);
    } else {
      RoutedMoves(b.pipe, o, expiry);
      ZeroIsDead(b'.pipe.core.lob);
      forall x: nat | Dead(c.lob, x) && x != 0
        ensures Dead(b'.pipe.core.lob, x)
      {
        OthersCover(b.pipe, o, expiry, x);
      }
    }
  }

  lemma StopCovers(p: Pipe, o: G.Raw, expiry: nat)
    requires o.action == G.ACT_NEW && o.kind >= 4
    ensures forall x: nat :: Dead(Routed(p, o, expiry).core.lob, x) <==> Dead(p.core.lob, x)
  {
    hide PriceTime.NoId; hide FirstFree;
  }

  /** The slot of a new order: in step with the book when it got an engine id, and rejected otherwise. */
  lemma EnteredSlot(b: Bridge, o: G.Raw, gw: nat, expiry: nat, riskOk: bool, last: nat)
    requires Inv(b, last) && last < gw && Tracked(b.reg, o, gw) && o.kind < 4 && Passes(b.pipe, o, riskOk)
    ensures var b', i, id := Accept(b, o, gw, expiry, riskOk, Staged(b.pipe, o, expiry, riskOk)), gw - b.reg.base - 1,
                             Submit(b.pipe.core, RequestOf(o)).result.id;
      && |b'.reg.orders| == |b.reg.orders|
      && if id != 0 && HasPlace(b, o, gw) then b'.reg.orders[i].meId == id && InStep(b'.reg.orders[i], b'.pipe.core)
         else b'.reg.orders[i] == NewSlot(o, gw).(status := SlotStatus.Rejected, touched := true)
  {
    hide InStep; hide AdvanceAll; hide OnAll; hide InverseOf; hide WellFormed; hide Seen; hide Submit; hide SettleAll;
    hide Issued; hide IdsIssued; hide Passes;
    var p, evs := b.pipe, Staged(b.pipe, o, expiry, riskOk);
    var p' := Handle(p, o, expiry, riskOk, evs);
    var i, r1, me := gw - b.reg.base - 1, Register(b.reg, o, gw), NewId(p.owners, p'.owners);
    RegisterKeeps(b.reg, o, gw, last, p.core);
    RoutedMoves(p, o, expiry);
    BindKeeps(r1, o, gw, me, p.core.lob.nextId, p'.core.lob.nextId);
    OnAllIsPointwise(Bind(r1, o, gw, me), evs);
    SubmitMoves(p.core, RequestOf(o));
    InverseSizes(b.reg);
    if me != 0 {
      EnteredAgrees(p, o, gw, expiry, me);
      AdvanceSame(NewSlot(o, gw).(meId := me), evs);
    }
  }

  /** So the slot of a new order tells whether it rests, exactly when it either does not rest or found its place. */
  lemma EnteredTellsIff(b: Bridge, o: G.Raw, gw: nat, expiry: nat, riskOk: bool, last: nat)
    requires Inv(b, last) && last < gw && Tracked(b.reg, o, gw) && o.kind < 4 && Passes(b.pipe, o, riskOk)
    ensures var b' := Accept(b, o, gw, expiry, riskOk, Staged(b.pipe, o, expiry, riskOk));
      && |b'.reg.orders| == |b.reg.orders|
      && var s, rests := b'.reg.orders[gw - b.reg.base - 1], OwnRests(b.pipe.core, RequestOf(o));
         (s.status in {SlotStatus.Open, SlotStatus.Partial} <==> rests) <==> (rests ==> HasPlace(b, o, gw))
  {
    hide Inv; hide Submit; hide WellFormed; hide Dead; hide Passes; hide Left; hide SettleAll; hide Seen;
    hide Counted;
    EnteredSlot(b, o, gw, expiry, riskOk, last);
    var b', id := Accept(b, o, gw, expiry, riskOk, Staged(b.pipe, o, expiry, riskOk)),
                  Submit(b.pipe.core, RequestOf(o)).result.id;
    EnteredCore(b, o, gw, expiry, riskOk);
    if id != 0 && HasPlace(b, o, gw) {
      LiveIsLeft(b'.pipe.core.lob, id);
    }
  }

  lemma EnteredCore(b: Bridge, o: G.Raw, gw: nat, expiry: nat, riskOk: bool)
    requires o.action == G.ACT_NEW && o.kind < 4 && Passes(b.pipe, o, riskOk)
    ensures Accept(b, o, gw, expiry, riskOk, Staged(b.pipe, o, expiry, riskOk)).pipe.core
         == Submit(b.pipe.core, RequestOf(o)).core
  {
    hide Submit; hide SettleAll; hide Seen;
  }

  // ----- whole runs

  datatype Inbound = Inbound(gw: nat, order: G.Raw, expiry: nat, riskOk: bool)

  function After(b: Bridge, m: Inbound): Bridge {
    Accept(b, m.order, m.gw, m.expiry, m.riskOk, Staged(b.pipe, m.order, m.expiry, m.riskOk))
  }

  function RunAll(b: Bridge, ms: seq<Inbound>): Bridge
    decreases |ms|
  {
    if ms == [] then b else RunAll(After(b, ms[0]), ms[1..])
  }

  /** Ascending gateway ids, and no amendment loses an order that is followed. */
  ghost predicate Orderly(b: Bridge, last: nat, ms: seq<Inbound>)
    decreases |ms|
  {
    ms == [] ||
      (last < ms[0].gw && !Loses(b, ms[0].order, ms[0].riskOk) && Orderly(After(b, ms[0]), ms[0].gw, ms[1..]))
  }

  function LastId(last: nat, ms: seq<Inbound>): nat {
    if ms == [] then last else ms[|ms| - 1].gw
  }

  /** Over every run in which no amendment loses an order, with all the stops that fire, registry and book agree. */
  lemma {:induction false} RunAgrees(b: Bridge, last: nat, ms: seq<Inbound>)
    requires Inv(b, last) && Orderly(b, last, ms)
    ensures Inv(RunAll(b, ms), LastId(last, ms))
    decreases |ms|
  {
    if ms != [] {
      var m := ms[0];
      hide Inv; hide Loses; hide Accept; hide Staged;
      AcceptKeeps(b, m.order, m.gw, m.expiry, m.riskOk, last);
      RunAgrees(After(b, m), m.gw, ms[1..]);
      assert LastId(m.gw, ms[1..]) == LastId(last, ms);
    }
  }

  /** No message brings an order onto the book that has no slot. */
  ghost predicate Placed(b: Bridge, ms: seq<Inbound>)
    decreases |ms|
  {
    ms == [] || (!Uncovers(b, ms[0].order, ms[0].gw, ms[0].riskOk) && Placed(After(b, ms[0]), ms[1..]))
  }

  /** Then every order on the book has its slot at the end. */
  lemma {:induction false} RunCovers(b: Bridge, last: nat, ms: seq<Inbound>)
    requires Inv(b, last) && Covered(b) && Orderly(b, last, ms) && Placed(b, ms)
    ensures Covered(RunAll(b, ms))
    decreases |ms|
  {
    if ms != [] {
      var m := ms[0];
      hide Inv; hide Covered; hide Loses; hide Uncovers; hide Accept; hide Staged;
      AcceptKeeps(b, m.order, m.gw, m.expiry, m.riskOk, last);
      AcceptCoversIff(b, m.order, m.gw, m.expiry, m.riskOk, last);
      RunCovers(After(b, m), m.gw, ms[1..]);
    }
  }

  const NO_SLOT: Slot := Slot(0, 0, 0, 0, Limit, Bid, 0, 0, 0, 0, 0, SlotStatus.Open, false)

  function Opening(base: nat, stops: seq<StopOrder>, seats: seq<Seat>): Bridge {
    Bridge(PipelineLaws.Opening(stops, seats),
           Reg(base, seq(REGISTRY_CAP, _ => NO_SLOT), seq(REGISTRY_CAP, _ => 0), []))
  }

  lemma OpeningAgrees(base: nat, stops: seq<StopOrder>, seats: seq<Seat>)
    requires forall i | 0 <= i < |stops| :: !stops[i].active
    ensures Inv(Opening(base, stops, seats), base) && Covered(Opening(base, stops, seats))
  {
    OpeningSettled(stops, seats);
  }

  /**
   What the invariant tells about one order: its slot is open exactly when it rests, with the quantity that
   rests, and every resting order has one.
   */
  lemma RegistryTells(b: Bridge, last: nat, i: nat)
    requires Inv(b, last) && i < |b.reg.orders| && Followed(b.reg.orders[i])
    ensures var s, lob := b.reg.orders[i], b.pipe.core.lob;
      && (s.status in {SlotStatus.Open, SlotStatus.Partial} <==> Live(lob, s.meId))
      && (Live(lob, s.meId) ==>
            && HasId(lob.sides.Get(SideHolding(lob, s.meId)), s.meId)
            && s.remain == Find(lob.sides.Get(SideHolding(lob, s.meId)), s.meId).qty)
      && s.filled == Traded(b.pipe.core.log, s.meId)
      && (Live(lob, s.meId) && !Amended(b.pipe.core.log, s.meId) ==> s.filled + s.remain == s.original)
  {
    var s, lob := b.reg.orders[i], b.pipe.core.lob;
    assert InStep(s, b.pipe.core);
    LiveIsLeft(lob, s.meId);
    if Live(lob, s.meId) {
      LiveHolding(lob, s.meId);
      var side := SideHolding(lob, s.meId);
      HalfOf(lob, side, s.meId);
      PositiveSide(side, lob.sides.Get(side), lob.nextId);
      OneQty(lob.sides.Get(side), s.meId);
    }
  }

  lemma {:induction false} OneQty(s: seq<PriceTime.Rest>, id: nat)
    requires DistinctIds(s) && HasId(s, id)
    ensures QtyOf(s, id) == Find(s, id).qty
  {
    if s[0].id == id {
      assert NoIdTail(s, id);
      NoneOf(s[1..], id);
    } else {
      var k :| 0 <= k < |s| && s[k].id == id;
      assert s[1..][k - 1].id == id;
      OneQty(s[1..], id);
    }
  }

  ghost predicate NoIdTail(s: seq<PriceTime.Rest>, id: nat)
    requires s != []
  {
    PriceTime.NoId(s[1..], id)
  }
}
