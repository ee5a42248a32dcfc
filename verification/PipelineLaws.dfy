/** Zero-sum settlement: over every run in which no stop fires, cash and positions only change hands. */
module PipelineLaws {
  import opened Types
  import opened PriceTime
  import opened BookSpec
  import opened BookLaws
  import opened MatchLaws
  import opened EngineSpec
  import opened EngineLaws
  import opened PipelineSpec
  import G = GatewaySpec

  // ----- submissions that fire no stop

  /** The order does not trade, or trades at prices that trigger nothing. */
  ghost predicate FiresNothing(c: Core, r: Request) {
    var e := Execute(c, r);
    e.traded ==> Quiet(e.core)
  }

  lemma {:induction false} QuietScan(c: Core, i: nat)
    requires Quiet(c) && i <= |c.stops|
    ensures Scan(c, c.lastPrice, i) == c
    decreases |c.stops| - i
  {
    if i < |c.stops| {
      QuietScan(c, i + 1);
    }
  }

  lemma SubmitIsExecute(c: Core, r: Request)
    requires FiresNothing(c, r)
    ensures Submit(c, r) == Execute(c, r)
  {
    hide Execute;
    var e := Execute(c, r);
    if e.traded {
      QuietScan(e.core, 0);
    }
  }

  // ----- the events of one submission

  /** The events between two states of the log. */
  function Emitted(c: Core, c': Core): seq<Event> {
    if |c.log| <= |c'.log| then c'.log[|c.log|..] else []
  }

  lemma EmittedIs(c: Core, c': Core, evs: seq<Event>)
    requires c'.log == c.log + evs
    ensures Emitted(c, c') == evs
  {
  }

  ghost predicate RestingIn(s: seq<Rest>, id: nat) {
    exists i :: 0 <= i < |s| && s[i].id == id
  }

  /** Every trade is between the submitted order and orders that rested on the other side. */
  ghost predicate TradesOf(evs: seq<Event>, id: nat, opp: seq<Rest>) {
    forall i | 0 <= i < |evs| && evs[i].Trade? :: evs[i].aggressor == id && RestingIn(opp, evs[i].resting)
  }

  lemma {:induction false} TradesAre(fills: seq<Fill>, seqNo: nat, id: nat, side: Side)
    ensures |Trades(fills, seqNo, id, side)| == |fills|
    ensures forall i | 0 <= i < |fills| ::
      Trades(fills, seqNo, id, side)[i] == Trade(seqNo + i + 1, id, fills[i].restingId, side, fills[i].price, fills[i].qty)
  {
    if fills != [] {
      TradesAre(fills[1..], seqNo + 1, id, side);
    }
  }

  /** What follows the trades: the cancelled IOC remainder and the closing event. */
  function Tail(r: Request, a: Added): seq<Event>
    requires FilledQty(a.fills) <= r.qty
  {
    var filled := FilledQty(a.fills);
    var left := r.qty - filled;
    var drop := r.kind == Ioc && left > 0 && a.id != 0;
    var remain := if drop then 0 else left;
    (if drop then [OrderEvent(OrderCancelled, a.id, r.side, r.kind, r.price, r.qty, 0, filled)] else [])
    + [if a.status == Rejected then OrderEvent(OrderRejected, a.id, r.side, r.kind, r.price, r.qty, r.qty, 0)
       else if remain == 0 then OrderEvent(OrderFilled, a.id, r.side, r.kind, r.price, r.qty, 0, filled)
       else if filled > 0 then OrderEvent(OrderPartial, a.id, r.side, r.kind, r.price, r.qty, remain, filled)
       else OrderEvent(OrderAccepted, a.id, r.side, r.kind, r.price, r.qty, r.qty, 0)]
  }

  /** The book's part of a submission. */
  function Entry(c: Core, r: Request): Added {
    Add(c.lob, r.side, EffectivePrice(r), r.qty, 0)
  }

  lemma ExecuteLog(c: Core, r: Request)
    ensures var e, a := Execute(c, r), Entry(c, r);
      && FilledQty(a.fills) <= r.qty
      && e.core.log == c.log + (if Admissible(c.lob, r) then Trades(a.fills, c.tradeSeq, a.id, r.side) + Tail(r, a)
                                else [OrderEvent(OrderRejected, 0, r.side, r.kind, r.price, r.qty, r.qty, 0)])
      && e.result.id == if Admissible(c.lob, r) then a.id else 0
  {
    hide Add; hide Trades; hide Cancel; hide Admissible;
    AddFills(c.lob, r.side, EffectivePrice(r), r.qty, 0);
    if Admissible(c.lob, r) {
      var a := Entry(c, r);
      var t := Trades(a.fills, c.tradeSeq, a.id, r.side);
      assert c.log + t + [] == c.log + t;
    }
  }

  lemma FillsRest(c: Core, r: Request)
    requires 0 < c.lob.nextId
    ensures var a, opp := Entry(c, r), c.lob.sides.Get(r.side.Opposite());
      && (a.fills != [] ==> a.id != 0)
      && forall i | 0 <= i < |a.fills| :: RestingIn(opp, a.fills[i].restingId)
  {
    var opp := c.lob.sides.Get(r.side.Opposite());
    MatchIsPrefix(r.side.Opposite(), opp, EffectivePrice(r), r.qty);
    hide Match; hide HasRoom; hide Enter;
    var a := Entry(c, r);
    forall i | 0 <= i < |a.fills|
      ensures RestingIn(opp, a.fills[i].restingId)
    {
      assert opp[i].id == a.fills[i].restingId;
    }
  }

  lemma ExecuteEmits(c: Core, r: Request) returns (evs: seq<Event>)
    requires 0 < c.lob.nextId
    ensures Execute(c, r).core.log == c.log + evs
    ensures TradesOf(evs, Execute(c, r).result.id, c.lob.sides.Get(r.side.Opposite()))
    ensures forall i | 0 <= i < |evs| && evs[i].Trade? :: Execute(c, r).result.id != 0
  {
    hide Execute; hide Admissible; hide RestingIn; hide Trades;
    ExecuteLog(c, r);
    FillsRest(c, r);
    var a := Entry(c, r);
    hide Entry;
    TradesAre(a.fills, c.tradeSeq, a.id, r.side);
    evs := if Admissible(c.lob, r) then Trades(a.fills, c.tradeSeq, a.id, r.side) + Tail(r, a)
           else [OrderEvent(OrderRejected, 0, r.side, r.kind, r.price, r.qty, r.qty, 0)];
  }

  // ----- who rests after a step

  /** Whatever rests in b' rested in b or is the order `id`. */
  ghost predicate NoNewcomers(b: Lob, b': Lob, id: nat) {
    forall x: nat | Dead(b, x) && x != id :: Dead(b', x)
  }

  lemma SubmitNewcomers(c: Core, r: Request)
    requires WellFormed(c.lob)
    ensures var e := Execute(c, r); NoNewcomers(c.lob, e.core.lob, e.result.id)
    ensures var e := Execute(c, r); e.result.id != 0 ==> c.lob.nextId <= e.result.id < e.core.lob.nextId
    ensures c.lob.nextId <= Execute(c, r).core.lob.nextId
  {
    var e := Execute(c, r);
    ExecuteKeeps(c, r);
    ExecuteLog(c, r);
    forall x: nat | Dead(c.lob, x) && x != e.result.id
      ensures Dead(e.core.lob, x)
    {
      if x < c.lob.nextId {
        ExecuteDead(c, r, x);
      } else {
        LateIsDead(c, r, x);
      }
    }
    EntryId(c, r);
  }

  lemma EntryId(c: Core, r: Request)
    requires 0 < c.lob.nextId
    ensures Entry(c, r).id == 0 ==> Entry(c, r).lob == c.lob
    ensures Entry(c, r).id != 0 ==> Entry(c, r).id == c.lob.nextId && Entry(c, r).lob.nextId == c.lob.nextId + 1
    ensures Execute(c, r).core.lob.nextId == if Admissible(c.lob, r) then Entry(c, r).lob.nextId else c.lob.nextId
  {
    hide Match; hide Enter; hide Without; hide HasRoom; hide Admissible; hide Live; hide HasId; hide Trades;
  }

  /** An id that has not been issued does not rest. */
  lemma LateIsDead(c: Core, r: Request, x: nat)
    requires WellFormed(c.lob) && c.lob.nextId <= x && x != Execute(c, r).result.id
    ensures Dead(Execute(c, r).core.lob, x)
  {
    hide Execute; hide Admissible; hide Add;
    ExecuteKeeps(c, r);
    ExecuteLog(c, r);
    EntryId(c, r);
    var e := Execute(c, r);
    if Admissible(c.lob, r) {
      assert e.core.lob.nextId <= x;
    }
    UnissuedDead(e.core.lob, x);
  }

  lemma UnissuedDead(b: Lob, x: nat)
    requires WellFormed(b) && b.nextId <= x
    ensures Dead(b, x)
  {
  }

  lemma CancelNewcomers(b: Lob, id: nat)
    ensures NoNewcomers(b, Cancel(b, id).0, 0) && Cancel(b, id).0.nextId == b.nextId
  {
    forall x: nat | Dead(b, x)
      ensures Dead(Cancel(b, id).0, x)
    {
      WithoutIds(b.sides.bid, x, id);
      WithoutIds(b.sides.ask, x, id);
    }
  }

  lemma ModifyNewcomers(b: Lob, id: nat, price: int, qty: nat)
    ensures NoNewcomers(b, Modify(b, id, price, qty).0, 0) && Modify(b, id, price, qty).0.nextId == b.nextId
  {
    forall x: nat | Dead(b, x)
      ensures Dead(Modify(b, id, price, qty).0, x)
    {
      WithoutIds(b.sides.bid, x, id);
      WithoutIds(b.sides.ask, x, id);
      if price > 0 && qty > 0 && Live(b, id) {
        HoldingSide(b, id);
        var side := SideHolding(b, id);
        var own := Without(b.sides.Get(side), id);
        var r := Find(b.sides.Get(side), id).(price := price, qty := qty);
        assert x != id;
        EnterIds(side, own, r, x);
      }
    }
  }

  // ----- attribution

  /** Everyone who rests can be found, and no entry is for an id that has yet to be issued. */
  ghost predicate Owned(b: Lob, owners: seq<Owner>, seats: seq<Seat>) {
    && (forall x: nat | !Dead(b, x) :: Known(seats, OwnerOf(owners, x)))
    && (forall i | 0 <= i < |owners| :: owners[i].id < b.nextId)
  }

  lemma {:induction false} OwnerAppend(owners: seq<Owner>, o: Owner, x: nat)
    requires forall i | 0 <= i < |owners| :: owners[i].id < o.id
    ensures OwnerOf(owners + [o], x) == if x == o.id then o.account else OwnerOf(owners, x)
  {
    if owners == [] {
      assert owners + [o] == [o] && OwnerOf([o][1..], x) == 0;
    } else {
      OwnerAppend(owners[1..], o, x);
      assert (owners + [o])[1..] == owners[1..] + [o];
    }
  }

  /** The account of a new order is remembered, the others stay as they were. */
  lemma RememberKeeps(b: Lob, b': Lob, owners: seq<Owner>, seats: seq<Seat>, id: nat, account: nat)
    requires Owned(b, owners, seats) && NoNewcomers(b, b', id) && Known(seats, account) && |owners| < MAX_OWNERS
    requires b.nextId <= b'.nextId && (id != 0 ==> b.nextId <= id < b'.nextId) && Dead(b', 0)
    ensures Owned(b', Remember(owners, id, account), seats)
    ensures forall x: nat | !Dead(b, x) && x != id :: Known(seats, OwnerOf(Remember(owners, id, account), x))
    ensures id != 0 ==> Known(seats, OwnerOf(Remember(owners, id, account), id))
  {
    hide Dead; hide Known; hide OwnerOf;
    var owners' := Remember(owners, id, account);
    forall x: nat
      ensures id != 0 ==> OwnerOf(owners', x) == if x == id then account else OwnerOf(owners, x)
    {
      if id != 0 {
        OwnerAppend(owners, Owner(id, account), x);
      }
    }
  }

  lemma ZeroIsDead(b: Lob)
    requires WellFormed(b)
    ensures Dead(b, 0)
  {
  }

  lemma RestingIsAlive(b: Lob, side: Side, id: nat)
    requires RestingIn(b.sides.Get(side), id)
    ensures !Dead(b, id)
  {
  }

  /** The invariant of settlement. */
  ghost predicate Settled(p: Pipe) {
    WellFormed(p.core.lob) && Owned(p.core.lob, p.owners, p.seats)
  }

  /** A message under which the ownership map stays complete: a known account, room in the map, no stop fires. */
  ghost predicate Plain(p: Pipe, o: G.Raw) {
    o.action == G.ACT_NEW ==>
      && Known(p.seats, o.account) && |p.owners| < MAX_OWNERS
      && (o.kind < 4 ==> FiresNothing(p.core, Request(KindOf(o.kind), SideOf(o.side), o.price, o.qty)))
  }

  lemma NoTradesAttributed(owners: seq<Owner>, seats: seq<Seat>, evs: seq<Event>)
    requires forall i | 0 <= i < |evs| :: !evs[i].Trade?
    ensures Attributed(owners, seats, evs)
  {
  }

  lemma SubmitSettles(p: Pipe, o: G.Raw, expiry: nat)
    requires Settled(p) && o.action == G.ACT_NEW && o.kind < 4 && Plain(p, o)
    ensures var p' := Routed(p, o, expiry);
      && Settled(p') && p'.seats == p.seats && Attributed(p'.owners, p.seats, Emitted(p.core, p'.core))
  {
    hide WellFormed; hide Owned; hide Execute; hide Dead; hide Known; hide OwnerOf; hide RestingIn; hide Quiet;
    hide FiresNothing;
    var r := Request(KindOf(o.kind), SideOf(o.side), o.price, o.qty);
    var e := Execute(p.core, r);
    WellFormedNext(p.core.lob);
    SubmitIsExecute(p.core, r);
    var evs := ExecuteEmits(p.core, r);
    EmittedIs(p.core, e.core, evs);
    SubmitNewcomers(p.core, r);
    ExecuteKeeps(p.core, r);
    ZeroIsDead(e.core.lob);
    RememberKeeps(p.core.lob, e.core.lob, p.owners, p.seats, e.result.id, o.account);
    var owners' := Remember(p.owners, e.result.id, o.account);
    forall i | 0 <= i < |evs| && evs[i].Trade?
      ensures Known(p.seats, OwnerOf(owners', evs[i].aggressor)) && Known(p.seats, OwnerOf(owners', evs[i].resting))
    {
      RestingIsAlive(p.core.lob, r.side.Opposite(), evs[i].resting);
    }
  }

  lemma WellFormedNext(b: Lob)
    requires WellFormed(b)
    ensures 0 < b.nextId
  {
  }

  lemma StopSettles(p: Pipe, o: G.Raw, expiry: nat)
    requires Settled(p) && o.action == G.ACT_NEW && o.kind >= 4 && Plain(p, o)
    ensures var p' := Routed(p, o, expiry);
      && Settled(p') && p'.seats == p.seats && Attributed(p'.owners, p.seats, Emitted(p.core, p'.core))
  {
    hide Owned; hide Known; hide OwnerOf; hide FirstFree;
    var (c', r) := SubmitStop(p.core, KindOf(o.kind), SideOf(o.side), o.trigger, o.price, o.qty, expiry);
    assert c'.log[..|p.core.log|] == p.core.log;
    assert c'.lob.sides == p.core.lob.sides;
    ZeroIsDead(c'.lob);
    RememberKeeps(p.core.lob, c'.lob, p.owners, p.seats, r.id, o.account);
    NoTradesAttributed(Remember(p.owners, r.id, o.account), p.seats, Emitted(p.core, c'));
  }

  lemma OtherSettles(p: Pipe, o: G.Raw, expiry: nat)
    requires Settled(p) && o.action != G.ACT_NEW
    ensures var p' := Routed(p, o, expiry);
      && Settled(p') && p'.seats == p.seats && Attributed(p'.owners, p.seats, Emitted(p.core, p'.core))
  {
    hide WellFormed; hide Dead; hide Known; hide OwnerOf; hide FindStop; hide Cancel; hide Modify; hide Live;
    hide SideHolding; hide Find;
    var p' := Routed(p, o, expiry);
    CancelKeeps(p.core.lob, o.target);
    CancelNewcomers(p.core.lob, o.target);
    ModifyKeeps(p.core.lob, o.target, o.newPrice, o.newQty);
    ModifyNewcomers(p.core.lob, o.target, o.newPrice, o.newQty);
    ZeroIsDead(p'.core.lob);
    NoTradesAttributed(p'.owners, p.seats, Emitted(p.core, p'.core));
  }

  /** What a message emits, when it gets as far as the engine. */
  function Seen(p: Pipe, o: G.Raw, expiry: nat): seq<Event> {
    Emitted(p.core, Routed(p, o, expiry).core)
  }

  /** One turn of pipeline_step is zero-sum, and leaves the next one zero-sum. */
  lemma HandleZeroSum(p: Pipe, o: G.Raw, expiry: nat, riskOk: bool)
    requires Settled(p) && Plain(p, o)
    ensures var p' := Handle(p, o, expiry, riskOk, Seen(p, o, expiry));
      && Settled(p') && TotalCash(p'.seats) == TotalCash(p.seats) && TotalNet(p'.seats) == TotalNet(p.seats)
  {
    var p1 := Routed(p, o, expiry);
    if o.action != G.ACT_NEW {
      OtherSettles(p, o, expiry);
    } else if o.kind < 4 {
      SubmitSettles(p, o, expiry);
    } else {
      StopSettles(p, o, expiry);
    }
    hide Settle; hide SettleAll; hide Routed; hide Dead; hide Known; hide WellFormed; hide TotalCash; hide TotalNet;
    hide Plain;
    NoGaps(p1.owners, p.seats, Seen(p, o, expiry));
    SettleAllMoves(p1.owners, p.seats, Seen(p, o, expiry));
  }

  // ----- whole runs

  datatype Input = Input(order: G.Raw, expiry: nat, riskOk: bool)

  function After(p: Pipe, i: Input): Pipe {
    Handle(p, i.order, i.expiry, i.riskOk, Seen(p, i.order, i.expiry))
  }

  function RunAll(p: Pipe, inputs: seq<Input>): Pipe
    decreases |inputs|
  {
    if inputs == [] then p else RunAll(After(p, inputs[0]), inputs[1..])
  }

  ghost predicate AllPlain(p: Pipe, inputs: seq<Input>)
    decreases |inputs|
  {
    inputs == [] || (Plain(p, inputs[0].order) && AllPlain(After(p, inputs[0]), inputs[1..]))
  }

  /** Nothing rests, nothing is attributed yet. */
  function Opening(stops: seq<StopOrder>, seats: seq<Seat>): Pipe {
    Pipe(Core(EMPTY, stops, 0, 0, 0, 0, []), [], seats)
  }

  lemma {:induction false} RunZeroSum(p: Pipe, inputs: seq<Input>)
    requires Settled(p) && AllPlain(p, inputs)
    ensures var p' := RunAll(p, inputs);
      && Settled(p') && TotalCash(p'.seats) == TotalCash(p.seats) && TotalNet(p'.seats) == TotalNet(p.seats)
    decreases |inputs|
  {
    if inputs != [] {
      HandleZeroSum(p, inputs[0].order, inputs[0].expiry, inputs[0].riskOk);
      hide Handle; hide Settled; hide Plain;
      RunZeroSum(After(p, inputs[0]), inputs[1..]);
    }
  }

  lemma OpeningSettled(stops: seq<StopOrder>, seats: seq<Seat>)
    ensures Settled(Opening(stops, seats))
  {
    ReachableWellFormed([]);
    assert Run(EMPTY, []) == EMPTY;
  }

  /** A trade of any quantity is zero-sum exactly when both of its sides are attributed or neither is. */
  lemma ZeroSumIff(owners: seq<Owner>, seats: seq<Seat>, e: Event)
    requires e.Trade?
    ensures var t := Settle(owners, seats, e);
      var both := Known(seats, OwnerOf(owners, e.aggressor)) <==> Known(seats, OwnerOf(owners, e.resting));
      && (TotalNet(t) == TotalNet(seats) <==> both || e.tradeQty == 0)
      && (TotalCash(t) == TotalCash(seats) <==> both || e.tradeQty == 0 || e.tradePrice == 0)
  {
    hide Settle; hide Known; hide TotalNet; hide TotalCash; hide OwnerOf;
    SettleTotals(owners, seats, e);
    ProductZero(Gap(owners, seats, e), e.tradePrice);
  }

  lemma ProductZero(a: int, b: int)
    ensures a * b == 0 <==> a == 0 || b == 0
  {
  }
}
