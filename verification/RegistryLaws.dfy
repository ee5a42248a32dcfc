/** When the bridge's slots agree with the book, order by order. */
module RegistryLaws {
  import opened Types
  import opened PriceTime
  import opened BookSpec
  import opened BookLaws
  import opened MatchLaws
  import opened EngineSpec
  import opened EngineLaws
  import opened PipelineSpec
  import opened PipelineLaws
  import opened Registry

  // ----- the quantity of one order

  function QtyOf(s: seq<Rest>, id: nat): nat {
    if s == [] then 0 else (if s[0].id == id then s[0].qty else 0) + QtyOf(s[1..], id)
  }

  /** What the book still holds of an order. */
  function Left(b: Lob, id: nat): nat {
    QtyOf(b.sides.bid, id) + QtyOf(b.sides.ask, id)
  }

  function FilledOf(f: seq<Fill>, id: nat): nat {
    if f == [] then 0 else (if f[0].restingId == id then f[0].qty else 0) + FilledOf(f[1..], id)
  }

  /** Matching conserves every order's quantity by itself. */
  lemma {:induction false} MatchEach(opp: Side, s: seq<Rest>, limit: int, q: nat, id: nat)
    ensures var m := Match(opp, s, limit, q); QtyOf(m.rest, id) + FilledOf(m.fills, id) == QtyOf(s, id)
  {
    var m := Match(opp, s, limit, q);
    if q == 0 || s == [] || !Crosses(opp, limit, s[0].price) {
    } else if q < s[0].qty {
      assert m.rest[1..] == s[1..] && m.fills[1..] == [];
    } else {
      MatchEach(opp, s[1..], limit, q - s[0].qty, id);
      assert m.fills[1..] == Match(opp, s[1..], limit, q - s[0].qty).fills;
    }
  }

  lemma {:induction false} EnterEach(side: Side, s: seq<Rest>, r: Rest, id: nat)
    ensures QtyOf(Enter(side, s, r), id) == QtyOf(s, id) + if r.id == id then r.qty else 0
  {
    var t := Enter(side, s, r);
    if s == [] || Better(side, r.price, s[0].price) {
      assert t[1..] == s;
    } else {
      EnterEach(side, s[1..], r, id);
      assert t[1..] == Enter(side, s[1..], r);
    }
  }

  lemma {:induction false} WithoutEach(s: seq<Rest>, gone: nat, id: nat)
    ensures QtyOf(Without(s, gone), id) == if id == gone then 0 else QtyOf(s, id)
  {
    if s != [] {
      WithoutEach(s[1..], gone, id);
      var t := Without(s[1..], gone);
      assert ([s[0]] + t)[1..] == t && [] + t == t;
    }
  }

  lemma {:induction false} NoneOf(s: seq<Rest>, id: nat)
    requires NoId(s, id)
    ensures QtyOf(s, id) == 0
  {
    if s != [] {
      NoneOf(s[1..], id);
    }
  }

  lemma {:induction false} SomeOf(s: seq<Rest>, id: nat)
    requires HasId(s, id) && forall i | 0 <= i < |s| :: s[i].qty > 0
    ensures QtyOf(s, id) > 0
  {
    if s[0].id != id {
      var i :| 0 <= i < |s| && s[i].id == id;
      assert s[1..][i - 1].id == id;
      SomeOf(s[1..], id);
    }
  }

  /** An order is live exactly when something of it is left. */
  lemma LiveIsLeft(b: Lob, id: nat)
    requires WellFormed(b)
    ensures Left(b, id) > 0 <==> Live(b, id)
    ensures Left(b, id) > 0 <==> !Dead(b, id)
  {
    var bid, ask := b.sides.bid, b.sides.ask;
    if HasId(bid, id) {
      SomeOf(bid, id);
    } else {
      NoneOf(bid, id);
    }
    if HasId(ask, id) {
      SomeOf(ask, id);
    } else {
      NoneOf(ask, id);
    }
  }

  lemma UnissuedLeft(b: Lob)
    requires WellFormed(b)
    ensures 0 < b.nextId && QtyOf(b.sides.bid, b.nextId) == 0 && QtyOf(b.sides.ask, b.nextId) == 0
  {
    UnissuedDead(b, b.nextId);
    NoneOf(b.sides.bid, b.nextId);
    NoneOf(b.sides.ask, b.nextId);
  }

  lemma NoFills(x: nat)
    ensures FilledOf([], x) == 0 && FilledQty([]) == 0
  {
  }

  // ----- the book's side of a submission

  lemma EntryLeft(c: Core, r: Request, x: nat)
    requires WellFormed(c.lob)
    ensures var a := Entry(c, r);
      && FilledQty(a.fills) <= r.qty
      && (x != a.id || a.id == 0 ==> Left(a.lob, x) + FilledOf(a.fills, x) == Left(c.lob, x))
      && (x == a.id != 0 ==>
            && FilledOf(a.fills, x) == 0
            && Left(a.lob, x) == if a.status in {Accepted, Status.Partial} then r.qty - FilledQty(a.fills) else 0)
  {
    hide Match; hide Enter; hide HasRoom; hide QtyOf; hide FilledOf; hide WellFormed; hide FilledQty;
    var side, opp, p := r.side, r.side.Opposite(), EffectivePrice(r);
    var own, other := c.lob.sides.Get(side), c.lob.sides.Get(opp);
    var m := Match(opp, other, p, r.qty);
    AddFills(c.lob, side, p, r.qty, 0);
    MatchEach(opp, other, p, r.qty, x);
    MatchConserves(opp, other, p, r.qty);
    EnterEach(side, own, Rest(c.lob.nextId, p, m.left, r.qty, 0), x);
    UnissuedLeft(c.lob);
    NoFills(x);
  }

  lemma CancelLeft(b: Lob, id: nat, x: nat)
    requires WellFormed(b)
    ensures Left(Cancel(b, id).0, x) == if x == id then 0 else Left(b, x)
  {
    WithoutEach(b.sides.bid, id, x);
    WithoutEach(b.sides.ask, id, x);
    if Live(b, id) {
      HoldingSide(b, id);
      var side := SideHolding(b, id);
      ApartSym(b.sides.bid, b.sides.ask);
      ApartNoId(b.sides.Get(side), b.sides.Get(side.Opposite()), id);
      NoneOf(b.sides.Get(side.Opposite()), id);
    } else {
      LiveIsLeft(b, id);
    }
    hide Without; hide QtyOf; hide WellFormed; hide Live; hide HasId;
  }

  /** The IOC remainder is taken off the book again. */
  predicate Drops(r: Request, a: Added)
    requires FilledQty(a.fills) <= r.qty
  {
    r.kind == Ioc && r.qty - FilledQty(a.fills) > 0 && a.id != 0
  }

  lemma ExecuteLeft(c: Core, r: Request, x: nat)
    requires WellFormed(c.lob) && x != 0
    ensures var e, a := Execute(c, r), Entry(c, r);
      && FilledQty(a.fills) <= r.qty
      && WellFormed(e.core.lob)
      && (!Admissible(c.lob, r) ==> Left(e.core.lob, x) == Left(c.lob, x))
      && (Admissible(c.lob, r) && x != a.id ==> Left(e.core.lob, x) + FilledOf(a.fills, x) == Left(c.lob, x))
      && (Admissible(c.lob, r) && x == a.id ==>
            && FilledOf(a.fills, x) == 0
            && Left(e.core.lob, x) == if a.status in {Accepted, Status.Partial} && !Drops(r, a)
                                      then r.qty - FilledQty(a.fills) else 0)
  {
    hide WellFormed; hide Left; hide Admissible; hide Cancel; hide Add; hide Trades; hide FilledOf;
    var a := Entry(c, r);
    ExecuteKeeps(c, r);
    EntryLeft(c, r, x);
    AddKeeps(c.lob, r.side, EffectivePrice(r), r.qty, 0);
    CancelLeft(a.lob, a.id, x);
  }

  // ----- the slot's side

  /** The slot says what the book holds: open with the right remainder, or closed. */
  predicate Agrees(s: Slot, left: nat) {
    if left > 0 then s.status in {SlotStatus.Open, SlotStatus.Partial} && s.remain == left
    else s.status in {SlotStatus.Filled, SlotStatus.Cancelled, SlotStatus.Rejected}
  }

  /** What never changes about a slot. */
  predicate SameOrder(s: Slot, t: Slot) {
    && t.orderId == s.orderId && t.meId == s.meId && t.kind == s.kind && t.account == s.account && t.original == s.original
    && t.client == s.client && t.side == s.side && t.trigger == s.trigger
  }

  lemma {:induction false} AdvanceSame(s: Slot, evs: seq<Event>)
    ensures SameOrder(s, AdvanceAll(s, evs))
    decreases |evs|
  {
    if evs != [] {
      AdvanceSame(Advance(s, evs[0]), evs[1..]);
    }
  }

  lemma {:induction false} AdvanceConcat(s: Slot, a: seq<Event>, b: seq<Event>)
    ensures AdvanceAll(s, a + b) == AdvanceAll(AdvanceAll(s, a), b)
    decreases |a|
  {
    if a == [] {
      assert a + b == b;
    } else {
      assert (a + b)[1..] == a[1..] + b;
      AdvanceConcat(Advance(s, a[0]), a[1..], b);
    }
  }

  /** The event is about neither side of the slot's order. */
  predicate Elsewhere(e: Event, x: nat) {
    if e.Trade? then e.aggressor != x && e.resting != x else e.id != x
  }

  lemma {:induction false} AdvanceElsewhere(s: Slot, evs: seq<Event>)
    requires forall i | 0 <= i < |evs| :: Elsewhere(evs[i], s.meId)
    ensures AdvanceAll(s, evs) == s
    decreases |evs|
  {
    if evs != [] {
      assert Elsewhere(evs[0], s.meId);
      AdvanceElsewhere(s, evs[1..]);
    }
  }

  ghost predicate AllFill(fills: seq<Fill>) {
    forall i | 0 <= i < |fills| :: fills[i].qty > 0
  }

  /** A resting order's slot under the trades of another order. */
  lemma {:induction false} RestingTrades(s: Slot, fills: seq<Fill>, seqNo: nat, id: nat, side: Side, left: nat)
    requires s.meId != id && Agrees(s, left) && FilledOf(fills, s.meId) <= left
    requires AllFill(fills)
    ensures Agrees(AdvanceAll(s, Trades(fills, seqNo, id, side)), left - FilledOf(fills, s.meId))
    decreases |fills|
  {
    if fills != [] {
      var f, t := fills[0], Trades(fills[1..], seqNo + 1, id, side);
      var e := Trade(seqNo + 1, id, f.restingId, side, f.price, f.qty);
      assert ([e] + t)[1..] == t;
      RestingTrades(Advance(s, e), fills[1..], seqNo + 1, id, side, left - if f.restingId == s.meId then f.qty else 0);
    }
  }

  /** The aggressor's slot under its own trades. */
  lemma {:induction false} AggressorTrades(s: Slot, fills: seq<Fill>, seqNo: nat, side: Side)
    requires FilledOf(fills, s.meId) == 0 && FilledQty(fills) <= s.remain
    requires AllFill(fills)
    requires s.status in {SlotStatus.Open, SlotStatus.Partial} || fills == []
    ensures var t := AdvanceAll(s, Trades(fills, seqNo, s.meId, side));
      && SameOrder(s, t) && t.remain == s.remain - FilledQty(fills) && t.filled == s.filled + FilledQty(fills)
      && t.status == (if fills == [] then s.status else if t.remain == 0 then SlotStatus.Filled else SlotStatus.Partial)
    decreases |fills|
  {
    if fills != [] {
      var f, ts := fills[0], Trades(fills[1..], seqNo + 1, s.meId, side);
      var e := Trade(seqNo + 1, s.meId, f.restingId, side, f.price, f.qty);
      assert ([e] + ts)[1..] == ts;
      if fills[1..] == [] {
        assert FilledQty(fills[1..]) == 0;
      } else {
        PositiveFills(fills[1..]);
      }
      AggressorTrades(Advance(s, e), fills[1..], seqNo + 1, side);
    }
  }

  lemma PositiveFills(fills: seq<Fill>)
    requires fills != [] && AllFill(fills)
    ensures FilledQty(fills) > 0
  {
  }

  lemma {:induction false} MatchPositive(opp: Side, s: seq<Rest>, limit: int, q: nat)
    requires forall i | 0 <= i < |s| :: s[i].qty > 0
    ensures AllFill(Match(opp, s, limit, q).fills)
  {
    if q > 0 && s != [] && Crosses(opp, limit, s[0].price) && q >= s[0].qty {
      MatchPositive(opp, s[1..], limit, q - s[0].qty);
    }
  }

  lemma EntryPositive(c: Core, r: Request)
    requires WellFormed(c.lob)
    ensures AllFill(Entry(c, r).fills)
  {
    var opp := r.side.Opposite();
    PositiveSide(Bid, c.lob.sides.bid, c.lob.nextId);
    PositiveSide(Ask, c.lob.sides.ask, c.lob.nextId);
    MatchPositive(opp, c.lob.sides.Get(opp), EffectivePrice(r), r.qty);
    hide Match; hide HasRoom; hide Enter; hide WellFormed;
  }

  /** The events of a submission that fires no stop. */
  function Events(c: Core, r: Request): seq<Event> {
    AddFills(c.lob, r.side, EffectivePrice(r), r.qty, 0);
    var a := Entry(c, r);
    if Admissible(c.lob, r) then Trades(a.fills, c.tradeSeq, a.id, r.side) + Tail(r, a)
    else [OrderEvent(OrderRejected, 0, r.side, r.kind, r.price, r.qty, r.qty, 0)]
  }

  /** A slot as it is entered for a new order and mapped to its engine id. */
  predicate Fresh(s: Slot, qty: nat, id: nat) {
    s.meId == id && s.status == SlotStatus.Open && s.remain == s.original == qty && s.filled == 0 && !s.touched
  }

  /** An order already on the book when another is submitted. */
  lemma OthersAgree(c: Core, r: Request, s: Slot)
    requires WellFormed(c.lob) && Agrees(s, Left(c.lob, s.meId)) && s.meId != 0 && s.meId != Execute(c, r).result.id
    ensures Agrees(AdvanceAll(s, Events(c, r)), Left(Execute(c, r).core.lob, s.meId))
  {
    hide WellFormed; hide Left; hide Execute; hide Admissible; hide Agrees; hide Trades; hide FilledOf; hide Add;
    ExecuteLog(c, r);
    ExecuteLeft(c, r, s.meId);
    if Admissible(c.lob, r) {
      var a := Entry(c, r);
      EntryPositive(c, r);
      RestingTrades(s, a.fills, c.tradeSeq, a.id, r.side, Left(c.lob, s.meId));
      var t := AdvanceAll(s, Trades(a.fills, c.tradeSeq, a.id, r.side));
      AdvanceSame(s, Trades(a.fills, c.tradeSeq, a.id, r.side));
      AdvanceConcat(s, Trades(a.fills, c.tradeSeq, a.id, r.side), Tail(r, a));
      AdvanceElsewhere(t, Tail(r, a));
    } else {
      AdvanceElsewhere(s, Events(c, r));
    }
  }

  /** The closing events of a submission, seen by its own slot. */
  lemma TailAgrees(r: Request, a: Added, s: Slot, left: nat)
    requires FilledQty(a.fills) <= r.qty && r.qty > 0 && s.meId == a.id != 0
    requires s.remain == r.qty - FilledQty(a.fills) && s.filled == FilledQty(a.fills)
    requires s.status in {SlotStatus.Open, SlotStatus.Partial, SlotStatus.Filled}
    requires left == if a.status in {Accepted, Status.Partial} && !Drops(r, a) then s.remain else 0
    requires a.status != Status.Rejected && s.remain > 0 ==> a.status in {Accepted, Status.Partial}
    ensures Agrees(AdvanceAll(s, Tail(r, a)), left) && AdvanceAll(s, Tail(r, a)).touched
  {
    var t := Tail(r, a);
    if Drops(r, a) {
      assert t[1..][1..] == [];
      var s1 := Advance(s, t[0]);
      assert Terminal(s1) && Advance(s1, t[1]) == s1;
      assert AdvanceAll(s1, t[1..]) == AdvanceAll(Advance(s1, t[1]), t[1..][1..]);
    } else {
      assert t[1..] == [];
    }
  }

  lemma EntryStatus(c: Core, r: Request)
    requires Entry(c, r).id != 0
    ensures var a := Entry(c, r);
      && FilledQty(a.fills) <= r.qty
      && (a.status != Status.Rejected && FilledQty(a.fills) < r.qty ==> a.status in {Accepted, Status.Partial})
  {
    AddFills(c.lob, r.side, EffectivePrice(r), r.qty, 0);
    MatchConserves(r.side.Opposite(), c.lob.sides.Get(r.side.Opposite()), EffectivePrice(r), r.qty);
    hide Match; hide HasRoom; hide Enter; hide FilledQty;
  }

  /** The submitted order itself, whatever its type and fate. */
  lemma OwnAgrees(c: Core, r: Request, s: Slot)
    requires WellFormed(c.lob) && Execute(c, r).result.id != 0 && Fresh(s, r.qty, Execute(c, r).result.id)
    ensures var t := AdvanceAll(s, Events(c, r));
      Agrees(t, Left(Execute(c, r).core.lob, s.meId)) && t.touched
  {
    hide WellFormed; hide Left; hide Execute; hide Agrees; hide Trades; hide FilledOf; hide Add; hide Tail;
    hide FokFillable;
    hide FilledQty;
    ExecuteLog(c, r);
    var a := Entry(c, r);
    EntryStatus(c, r);
    ExecuteLeft(c, r, s.meId);
    EntryPositive(c, r);
    AggressorTrades(s, a.fills, c.tradeSeq, r.side);
    NoFills(0);
    var t := AdvanceAll(s, Trades(a.fills, c.tradeSeq, a.id, r.side));
    AdvanceConcat(s, Trades(a.fills, c.tradeSeq, a.id, r.side), Tail(r, a));
    TailAgrees(r, a, t, Left(Execute(c, r).core.lob, s.meId));
  }

  // ----- cancelling and amending

  lemma CancelAgrees(c: Core, id: nat, s: Slot)
    requires WellFormed(c.lob) && Agrees(s, Left(c.lob, s.meId))
    ensures var c' := MatchCancel(c, id);
      Agrees(AdvanceAll(s, Emitted(c, c')), Left(c'.lob, s.meId))
  {
    hide WellFormed; hide Left; hide Cancel; hide FindStop; hide Live; hide SideHolding; hide Find;
    var c' := MatchCancel(c, id);
    CancelLeft(c.lob, id, s.meId);
    LiveIsLeft(c.lob, s.meId);
    if Live(c.lob, id) {
      var r, side := Find(c.lob.sides.Get(SideHolding(c.lob, id)), id), SideHolding(c.lob, id);
      var e := OrderEvent(OrderCancelled, id, side, Limit, r.price, r.original, 0, r.qty);
      EmittedIs(c, c', [e]);
      AdvanceOne(s, e);
    } else if FindStop(c.stops, id) < |c.stops| {
      var st := c.stops[FindStop(c.stops, id)];
      var e := OrderEvent(OrderCancelled, id, st.side, st.kind, st.trigger, st.qty, 0, 0);
      EmittedIs(c, c', [e]);
      AdvanceOne(s, e);
    } else {
      assert c.log + [] == c.log;
      EmittedIs(c, c', []);
    }
  }

  lemma AdvanceOne(s: Slot, e: Event)
    ensures AdvanceAll(s, [e]) == Advance(s, e)
  {
    assert [e][1..] == [];
  }

  /** The amended order finds no level and is lost. */
  predicate Lost(b: Lob, id: nat, price: int, qty: nat) {
    price > 0 && qty > 0 && Live(b, id) && !HasRoom(Without(b.sides.Get(SideHolding(b, id)), id), price)
  }

  lemma FindId(s: seq<Rest>, id: nat)
    requires HasId(s, id)
    ensures Find(s, id).id == id
  {
  }

  lemma ModifyLeft(b: Lob, id: nat, price: int, qty: nat, x: nat)
    requires WellFormed(b)
    ensures Left(Modify(b, id, price, qty).0, x) ==
      if x != id || price <= 0 || qty == 0 || !Live(b, id) then Left(b, x) else if Lost(b, id, price, qty) then 0 else qty
  {
    hide Without; hide QtyOf; hide WellFormed; hide Live; hide HasId; hide Enter; hide HasRoom;
    if Live(b, id) && price > 0 && qty > 0 {
      LiveHolding(b, id);
      var side := SideHolding(b, id);
      var own, opp := b.sides.Get(side), b.sides.Get(side.Opposite());
      HalfOf(b, side, id);
      FindId(own, id);
      WithoutEach(own, id, x);
      EnterEach(side, Without(own, id), Find(own, id).(price := price, qty := qty), x);
    }
  }

  lemma LiveHolding(b: Lob, id: nat)
    requires Live(b, id)
    ensures HasId(b.sides.Get(SideHolding(b, id)), id)
  {
    HoldingSide(b, id);
  }

  /** An order rests on one side only. */
  lemma HalfOf(b: Lob, side: Side, id: nat)
    requires WellFormed(b) && HasId(b.sides.Get(side), id)
    ensures QtyOf(b.sides.Get(side.Opposite()), id) == 0
  {
    ApartSym(b.sides.bid, b.sides.ask);
    ApartNoId(b.sides.Get(side), b.sides.Get(side.Opposite()), id);
    NoneOf(b.sides.Get(side.Opposite()), id);
  }

  /** Amending keeps the agreement of every slot, except exactly that of an order lost at the level limit. */
  lemma ModifyAgreesIff(c: Core, id: nat, price: int, qty: nat, s: Slot)
    requires WellFormed(c.lob) && Agrees(s, Left(c.lob, s.meId))
    ensures var c' := ModifyOrder(c, id, price, qty).0;
      Agrees(AdvanceAll(s, Emitted(c, c')), Left(c'.lob, s.meId)) <==> !(s.meId == id && Lost(c.lob, id, price, qty))
  {
    hide WellFormed; hide Left; hide Live; hide SideHolding; hide Find; hide HasRoom; hide Without; hide Enter;
    var c' := ModifyOrder(c, id, price, qty).0;
    ModifyLeft(c.lob, id, price, qty, s.meId);
    LiveIsLeft(c.lob, id);
    var st := Modify(c.lob, id, price, qty).1;
    assert c.log + [] == c.log;
    if Live(c.lob, id) && st == Accepted {
      var side := SideHolding(c.lob, id);
      var r := Find(c.lob.sides.Get(side), id);
      var e := OrderEvent(OrderModified, id, side, Limit, price, r.original, qty, 0);
      EmittedIs(c, c', [e]);
      AdvanceOne(s, e);
    } else {
      EmittedIs(c, c', []);
    }
  }

  /** A dormant order is entered: nothing on the book changes. */
  lemma StopAgrees(c: Core, kind: OrderType, side: Side, trigger: int, limit: int, qty: nat, expiry: nat, s: Slot)
    requires Agrees(s, Left(c.lob, s.meId)) && s.meId != 0 && s.meId < c.lob.nextId
    ensures var c' := SubmitStop(c, kind, side, trigger, limit, qty, expiry).0;
      Agrees(AdvanceAll(s, Emitted(c, c')), Left(c'.lob, s.meId))
  {
    hide QtyOf; hide FirstFree;
    var c' := SubmitStop(c, kind, side, trigger, limit, qty, expiry).0;
    var evs := Emitted(c, c');
    assert c'.log[..|c.log|] == c.log;
    AdvanceElsewhere(s, evs);
  }

  // ----- the loss of an amended order, from the start

  /** Bids of one unit at the prices n, n - 1, ..., 1, each numbered by its price. */
  function Rungs(n: nat): seq<Rest> {
    if n == 0 then [] else [Rest(n, n, 1, 1, 0)] + Rungs(n - 1)
  }

  /** Bids at the prices above i up to n, and a second one at n. */
  function Climb(i: nat, n: nat): seq<Op>
    requires i <= n
    decreases n - i
  {
    if i == n then [AddOp(Bid, n, 1, 0)] else [AddOp(Bid, i + 1, 1, 0)] + Climb(i + 1, n)
  }

  lemma {:induction false} RungPrices(n: nat)
    ensures |Prices(Rungs(n))| == n && |Rungs(n)| == n
    ensures forall r | r in Rungs(n) :: 0 < r.price <= n && r.id == r.price
    ensures forall p | p in Prices(Rungs(n)) :: p <= n
    ensures !HasId(Rungs(n), n + 1)
  {
    if n > 0 {
      RungPrices(n - 1);
      ConsPrices(Rest(n, n, 1, 1, 0), Rungs(n - 1));
    } else {
      assert Prices([]) == {};
    }
  }

  lemma ConsPrices(r: Rest, s: seq<Rest>)
    ensures Prices([r] + s) == {r.price} + Prices(s)
  {
    var t := [r] + s;
    forall p | p in Prices(s)
      ensures p in Prices(t)
    {
      var i :| 0 <= i < |s| && s[i].price == p;
      assert t[i + 1].price == p;
    }
    assert t[0].price == r.price;
  }

  function Climbed(n: nat): Lob {
    Lob(Sided(Rungs(n), []), n + 1)
  }

  /** The book at the end of the climb. */
  function Top(n: nat): Lob
    requires n > 0
  {
    Lob(Sided([Rest(n, n, 1, 1, 0), Rest(n + 1, n, 1, 1, 0)] + Rungs(n - 1), []), n + 2)
  }

  lemma ClimbStep(n: nat)
    requires n < MAX_LEVELS
    ensures Step(Climbed(n), AddOp(Bid, n + 1, 1, 0)) == Climbed(n + 1)
  {
    RungPrices(n);
  }

  lemma TopStep(n: nat)
    requires 0 < n <= MAX_LEVELS
    ensures Step(Climbed(n), AddOp(Bid, n, 1, 0)) == Top(n)
  {
    RungPrices(n);
    var s, r := Rungs(n), Rest(n + 1, n, 1, 1, 0);
    assert s[0].price == n && n in Prices(s);
    assert Enter(Bid, s[1..], r) == [r] + s[1..] by {
      RungPrices(n - 1);
    }
    assert [s[0]] + ([r] + s[1..]) == [s[0], r] + s[1..];
  }

  lemma {:induction false} ClimbRuns(i: nat, n: nat)
    requires i <= n && 0 < n <= MAX_LEVELS
    ensures Run(Climbed(i), Climb(i, n)) == Top(n)
    decreases n - i
  {
    hide Step; hide Top; hide Climbed;
    if i < n {
      ClimbStep(i);
      ClimbRuns(i + 1, n);
      assert Climb(i, n)[1..] == Climb(i + 1, n);
    } else {
      TopStep(n);
      assert Climb(i, n)[1..] == [];
    }
  }

  lemma ConsWithout(r: Rest, s: seq<Rest>, id: nat)
    ensures Without([r] + s, id) == (if r.id == id then [] else [r]) + Without(s, id)
    ensures QtyOf([r] + s, id) == (if r.id == id then r.qty else 0) + QtyOf(s, id)
    ensures HasId([r] + s, r.id)
  {
    assert ([r] + s)[1..] == s && ([r] + s)[0] == r;
  }

  lemma ClimbStart(n: nat)
    ensures EMPTY == Climbed(0)
  {
  }

  /** At the top, the first order can go without freeing its level. */
  lemma TopLoses(n: nat)
    requires n == MAX_LEVELS
    ensures var b := Top(n); |Prices(b.sides.bid)| == n && Lost(b, n, n + 1, 1) && Left(b, n) == 1
  {
    hide Without; hide QtyOf; hide HasId; hide Prices; hide Rungs;
    var x, y, s := Rest(n, n, 1, 1, 0), Rest(n + 1, n, 1, 1, 0), Rungs(n - 1);
    RungPrices(n - 1);
    assert Top(n).sides.bid == [x] + ([y] + s) by {
      assert [x, y] + s == [x] + ([y] + s);
    }
    assert |{n} + Prices(s)| == |Prices(s)| + 1;
    ConsPrices(y, s);
    ConsPrices(x, [y] + s);
    assert {n} + ({n} + Prices(s)) == {n} + Prices(s);
    ConsWithout(y, s, n);
    ConsWithout(x, [y] + s, n);
    WithoutAbsent(s, n);
    assert [] + ([y] + s) == [y] + s;
    NoneOf(s, n);
    NoneOf([], n);
  }

  /**
   The loss can happen: on a book whose bids hold every level, one of two orders at the best price is amended to
   a price of its own. Its slot is then out of agreement.
   */
  lemma LostExample(c: Core, s: Slot)
    requires c.lob == Run(EMPTY, Climb(0, MAX_LEVELS))
    requires s.meId == MAX_LEVELS && Agrees(s, Left(c.lob, s.meId))
    ensures WellFormed(c.lob) && |Prices(c.lob.sides.bid)| == MAX_LEVELS
    ensures Lost(c.lob, MAX_LEVELS, MAX_LEVELS + 1, 1) && Left(c.lob, MAX_LEVELS) == 1
    ensures var c' := ModifyOrder(c, MAX_LEVELS, MAX_LEVELS + 1, 1).0;
      !Live(c'.lob, MAX_LEVELS) && !Agrees(AdvanceAll(s, Emitted(c, c')), Left(c'.lob, s.meId))
  {
    hide Run; hide WellFormed; hide Agrees; hide AdvanceAll; hide Emitted; hide Left; hide Lost; hide Climb;
    hide Top; hide Modify; hide Live; hide Find; hide Prices;
    var n := MAX_LEVELS;
    ReachableWellFormed(Climb(0, n));
    ClimbStart(n);
    ClimbRuns(0, n);
    TopLoses(n);
    ModifyAgreesIff(c, n, n + 1, 1, s);
    ModifyLeft(c.lob, n, n + 1, 1, n);
    ModifyKeeps(c.lob, n, n + 1, 1);
    LiveIsLeft(Modify(c.lob, n, n + 1, 1).0, n);
    LiveIsLeft(c.lob, n);
  }
}
