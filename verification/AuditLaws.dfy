/**
 What the event log alone tells an auditor of the engine: every trade is within the limits that its two orders
 announced, trades are numbered without gaps, the counters count the log, and every fired stop had a trade to fire it.
 */
module AuditLaws {
  import opened Types
  import opened PriceTime
  import opened BookSpec
  import opened BookLaws
  import opened BookAnswers
  import opened MatchLaws
  import opened EngineSpec
  import opened EngineLaws
  import opened PipelineLaws
  import opened RegistryLaws
  import opened CascadeLaws
  import opened StopLaws

  // ----- what an order has announced

  datatype Claim = NoClaim | Claim(side: Side, limit: int)

  /** The worst price an announced order accepts: a market order names none. */
  function LimitOf(kind: OrderType, side: Side, price: int): int {
    if kind != Market then price else if side == Bid then 0x7FFF_FFFF_FFFF_FFFF else 1
  }

  predicate Claims(e: Event, x: nat) {
    e.OrderEvent? && e.id == x && e.etype in {OrderAccepted, OrderPartial, OrderModified}
  }

  /** Side and limit of order x, as it was last entered or amended. */
  function Claimed(log: seq<Event>, x: nat): Claim
    decreases |log|
  {
    if log == [] then NoClaim
    else
      var e := log[|log| - 1];
      if Claims(e, x) then Claim(e.side, LimitOf(e.kind, e.side, e.price)) else Claimed(log[..|log| - 1], x)
  }

  lemma {:induction false} ClaimedOther(log: seq<Event>, evs: seq<Event>, x: nat)
    requires forall i | 0 <= i < |evs| :: !Claims(evs[i], x)
    ensures Claimed(log + evs, x) == Claimed(log, x)
    decreases |evs|
  {
    if evs == [] {
      assert log + evs == log;
    } else {
      var n := |evs| - 1;
      assert (log + evs)[..|log + evs| - 1] == log + evs[..n] && (log + evs)[|log + evs| - 1] == evs[n];
      ClaimedOther(log, evs[..n], x);
    }
  }

  lemma ClaimedNow(log: seq<Event>, e: Event)
    requires e.OrderEvent? && Claims(e, e.id)
    ensures Claimed(log + [e], e.id) == Claim(e.side, LimitOf(e.kind, e.side, e.price))
  {
  }

  /** Every resting order rests at the limit it announced. */
  ghost predicate Stated(b: Lob, log: seq<Event>) {
    forall side: Side, i: nat | i < |b.sides.Get(side)| ::
      Claimed(log, b.sides.Get(side)[i].id) == Claim(side, b.sides.Get(side)[i].price)
  }

  /** Whatever rests in b' rested in b at the same price. */
  ghost predicate Fewer(b: Lob, b': Lob) {
    forall side: Side, i: nat | i < |b'.sides.Get(side)| :: RestsAs(b, side, b'.sides.Get(side)[i].id, b'.sides.Get(side)[i].price)
  }

  ghost predicate RestsAs(b: Lob, side: Side, id: nat, price: int) {
    exists j: nat :: j < |b.sides.Get(side)| && b.sides.Get(side)[j].id == id && b.sides.Get(side)[j].price == price
  }

  lemma StatedAs(b: Lob, log: seq<Event>, side: Side, id: nat, price: int)
    requires Stated(b, log) && RestsAs(b, side, id, price)
    ensures Claimed(log, id) == Claim(side, price)
  {
  }

  /** Events that claim nothing for an order of the book leave it stated, also when some orders leave. */
  lemma StatedFewer(b: Lob, b': Lob, log: seq<Event>, evs: seq<Event>)
    requires Stated(b, log) && Fewer(b, b')
    requires forall k, side: Side, i: nat | 0 <= k < |evs| && i < |b'.sides.Get(side)| :: !Claims(evs[k], b'.sides.Get(side)[i].id)
    ensures Stated(b', log + evs)
  {
    hide Claimed; hide Claims;
    forall side: Side, i: nat | i < |b'.sides.Get(side)|
      ensures Claimed(log + evs, b'.sides.Get(side)[i].id) == Claim(side, b'.sides.Get(side)[i].price)
    {
      ClaimedOther(log, evs, b'.sides.Get(side)[i].id);
      StatedAs(b, log, side, b'.sides.Get(side)[i].id, b'.sides.Get(side)[i].price);
    }
  }

  // ----- trades

  /** The trade at place k is at the limit of the order that rested, and within that of the order that came. */
  ghost predicate Kept(log: seq<Event>, k: nat)
    requires k < |log| && log[k].Trade?
  {
    var e := log[k];
    && Claimed(log[..k], e.resting) == Claim(if e.aggressorSide == Bid then Ask else Bid, e.tradePrice)
    && exists j :: Closes(log, k, j)
  }

  /** The next event that is not a trade is about the order that came, and names its limit. */
  ghost predicate Closes(log: seq<Event>, k: nat, j: int)
    requires k < |log| && log[k].Trade?
  {
    && k < j < |log| && (forall i | k < i < j :: log[i].Trade? && log[i].aggressor == log[k].aggressor)
    && log[j].OrderEvent? && log[j].id == log[k].aggressor && log[j].side == log[k].aggressorSide
    && var limit := LimitOf(log[j].kind, log[j].side, log[j].price);
      if log[j].side == Bid then log[k].tradePrice <= limit else log[k].tradePrice >= limit
  }

  ghost predicate Audited(log: seq<Event>) {
    forall k: nat | k < |log| && log[k].Trade? :: Kept(log, k)
  }

  lemma KeptLater(log: seq<Event>, evs: seq<Event>, k: nat)
    requires k < |log| && log[k].Trade? && Kept(log, k)
    ensures (log + evs)[k] == log[k] && Kept(log + evs, k)
  {
    hide Claimed;
    var t := log + evs;
    var j :| Closes(log, k, j);
    assert t[..k] == log[..k];
    assert forall i | 0 <= i < |log| :: t[i] == log[i];
    assert Closes(t, k, j);
  }

  lemma AuditedMore(log: seq<Event>, evs: seq<Event>)
    requires Audited(log) && forall k: nat | |log| <= k < |log + evs| && (log + evs)[k].Trade? :: Kept(log + evs, k)
    ensures Audited(log + evs)
  {
    hide Kept;
    var t := log + evs;
    forall k: nat | k < |t| && t[k].Trade?
      ensures Kept(t, k)
    {
      if k < |log| {
        assert t[k] == log[k];
        KeptLater(log, evs, k);
      }
    }
  }

  lemma AuditedSilent(log: seq<Event>, evs: seq<Event>)
    requires Audited(log) && forall i | 0 <= i < |evs| :: evs[i].OrderEvent?
    ensures Audited(log + evs)
  {
    AuditedMore(log, evs);
  }

  /** The trades of one order against orders that stated their prices, and the event that closes them. */
  lemma TradesKept(b: Lob, log: seq<Event>, fills: seq<Fill>, seqNo: nat, id: nat, side: Side, tail: seq<Event>)
    requires Stated(b, log) && Audited(log)
    requires forall i | 0 <= i < |fills| :: RestsAs(b, side.Opposite(), fills[i].restingId, fills[i].price)
    requires tail != [] && (forall i | 0 <= i < |tail| :: tail[i].OrderEvent?)
    requires tail[0].OrderEvent? && tail[0].id == id && tail[0].side == side
    requires var limit := LimitOf(tail[0].kind, side, tail[0].price);
      forall i | 0 <= i < |fills| :: if side == Bid then fills[i].price <= limit else fills[i].price >= limit
    ensures Audited(log + (Trades(fills, seqNo, id, side) + tail))
  {
    TradesAre(fills, seqNo, id, side);
    hide Claimed; hide Trades; hide RestsAs; hide Stated;
    var ts := Trades(fills, seqNo, id, side);
    var evs := ts + tail;
    var t := log + evs;
    forall k: nat | |log| <= k < |t| && t[k].Trade?
      ensures Kept(t, k)
    {
      var i := k - |log|;
      assert t[k] == evs[i] && i < |fills|;
      assert t[..k] == log + ts[..i];
      ClaimedOther(log, ts[..i], fills[i].restingId);
      StatedAs(b, log, side.Opposite(), fills[i].restingId, fills[i].price);
      var j := |log| + |fills|;
      assert t[j] == tail[0];
      assert forall n | k < n < j :: t[n] == ts[n - |log|];
      assert Closes(t, k, j);
    }
    AuditedMore(log, evs);
  }

  // ----- counting

  datatype Tally = Tally(trades: nat, accepted: nat, rejected: nat, last: int)

  function Counted(t: Tally, e: Event): Tally {
    match e
    case Trade(_, _, _, _, price, _) => t.(trades := t.trades + 1, last := price)
    case OrderEvent(etype, _, _, _, _, _, _, _) =>
      if etype in {OrderAccepted, OrderFilled, OrderPartial} then t.(accepted := t.accepted + 1)
      else if etype == OrderRejected then t.(rejected := t.rejected + 1)
      else t
  }

  /** How many trades, acceptances and refusals there were, and the price of the last trade. */
  function TallyOf(log: seq<Event>): Tally
    decreases |log|
  {
    if log == [] then Tally(0, 0, 0, 0) else Counted(TallyOf(log[..|log| - 1]), log[|log| - 1])
  }

  lemma TallyMore(log: seq<Event>, e: Event)
    ensures TallyOf(log + [e]) == Counted(TallyOf(log), e)
  {
    assert (log + [e])[..|log|] == log;
  }

  /** Trades are numbered from 1 without gaps. */
  ghost predicate Numbered(log: seq<Event>) {
    forall k: nat | k < |log| && log[k].Trade? :: log[k].tradeId == TallyOf(log[..k]).trades + 1
  }

  lemma NumberedMore(log: seq<Event>, e: Event)
    requires Numbered(log) && (e.Trade? ==> e.tradeId == TallyOf(log).trades + 1)
    ensures Numbered(log + [e])
  {
    hide TallyOf;
    var t := log + [e];
    forall k: nat | k < |t| && t[k].Trade?
      ensures t[k].tradeId == TallyOf(t[..k]).trades + 1
    {
      assert t[..k] == log[..k];
      assert k == |log| ==> t[..k] == log;
    }
  }

  lemma {:induction false} TradesTally(log: seq<Event>, fills: seq<Fill>, seqNo: nat, id: nat, side: Side)
    requires TallyOf(log).trades == seqNo && Numbered(log)
    ensures var t := log + Trades(fills, seqNo, id, side);
      && Numbered(t)
      && TallyOf(t) == TallyOf(log).(trades := seqNo + |fills|,
                                     last := if fills == [] then TallyOf(log).last else fills[|fills| - 1].price)
    decreases |fills|
  {
    hide TallyOf; hide Numbered;
    if fills == [] {
      assert log + [] == log;
    } else {
      var e := Trade(seqNo + 1, id, fills[0].restingId, side, fills[0].price, fills[0].qty);
      TallyMore(log, e);
      NumberedMore(log, e);
      TradesTally(log + [e], fills[1..], seqNo + 1, id, side);
      assert log + [e] + Trades(fills[1..], seqNo + 1, id, side) == log + ([e] + Trades(fills[1..], seqNo + 1, id, side));
    }
  }

  // ----- fired stops

  /** There was a trade at this price. */
  ghost predicate TradedAt(log: seq<Event>, price: int) {
    exists i :: 0 <= i < |log| && log[i].Trade? && log[i].tradePrice == price
  }

  /** Every stop that fired was set off by a trade before it, at its trigger or beyond. */
  ghost predicate Justified(log: seq<Event>) {
    forall k: nat | k < |log| && log[k].OrderEvent? && log[k].etype == StopTriggered :: SetOff(log, k)
  }

  ghost predicate SetOff(log: seq<Event>, k: nat)
    requires k < |log| && log[k].OrderEvent?
  {
    exists i :: 0 <= i < k && log[i].Trade?
      && if log[k].side == Bid then log[i].tradePrice >= log[k].price else log[i].tradePrice <= log[k].price
  }

  lemma JustifiedMore(log: seq<Event>, evs: seq<Event>)
    requires Justified(log)
    requires forall i | 0 <= i < |evs| :: evs[i].OrderEvent? ==> evs[i].etype != StopTriggered
    ensures Justified(log + evs)
  {
    var t := log + evs;
    forall k: nat | k < |t| && t[k].OrderEvent? && t[k].etype == StopTriggered
      ensures SetOff(t, k)
    {
      assert t[k] == log[k];
      var i :| 0 <= i < k && log[i].Trade?
        && if log[k].side == Bid then log[i].tradePrice >= log[k].price else log[i].tradePrice <= log[k].price;
      assert t[i] == log[i];
    }
  }

  lemma JustifiedFire(log: seq<Event>, e: Event, price: int)
    requires Justified(log) && TradedAt(log, price) && e.OrderEvent?
    requires if e.side == Bid then price >= e.price else price <= e.price
    ensures Justified(log + [e])
  {
    var t := log + [e];
    forall k: nat | k < |t| && t[k].OrderEvent? && t[k].etype == StopTriggered
      ensures SetOff(t, k)
    {
      if k < |log| {
        assert t[k] == log[k];
        var i :| 0 <= i < k && log[i].Trade?
          && if log[k].side == Bid then log[i].tradePrice >= log[k].price else log[i].tradePrice <= log[k].price;
        assert t[i] == log[i];
      } else {
        var i :| 0 <= i < |log| && log[i].Trade? && log[i].tradePrice == price;
        assert t[i] == log[i];
      }
    }
  }

  lemma TradedAtLater(log: seq<Event>, evs: seq<Event>, price: int)
    requires TradedAt(log, price)
    ensures TradedAt(log + evs, price)
  {
    var i :| 0 <= i < |log| && log[i].Trade? && log[i].tradePrice == price;
    assert (log + evs)[i] == log[i];
  }

  // ----- the engine's steps

  ghost predicate Sound(c: Core) {
    && WellFormed(c.lob) && Stated(c.lob, c.log)
    && Audited(c.log) && Justified(c.log) && Numbered(c.log)
    && TallyOf(c.log) == Tally(c.tradeSeq, c.accepted, c.rejected, c.lastPrice)
  }

  lemma FewerSame(b: Lob)
    ensures Fewer(b, b)
  {
    forall side: Side, i: nat | i < |b.sides.Get(side)|
      ensures RestsAs(b, side, b.sides.Get(side)[i].id, b.sides.Get(side)[i].price)
    {
    }
  }

  lemma TookFewer(side: Side, s: seq<Rest>, limit: int, m: Matched, i: nat)
    requires TakesFront(side, s, limit, m) && i < |m.rest|
    ensures exists j: nat :: j < |s| && s[j].id == m.rest[i].id && s[j].price == m.rest[i].price
  {
    var n := |m.fills|;
    if n == 0 || m.fills[n - 1].qty == s[n - 1].qty {
      assert m.rest[i] == s[n + i];
    } else {
      assert m.rest[i] == if i == 0 then s[n - 1].(qty := s[n - 1].qty - m.fills[n - 1].qty) else s[n + i - 1];
    }
  }

  /** After an order was added: the others at their prices, and itself at its own if it rests. */
  ghost predicate Joined(b: Lob, b': Lob, own: Side, id: nat, price: int, rests: bool) {
    forall side: Side, i: nat | i < |b'.sides.Get(side)| ::
      var r := b'.sides.Get(side)[i];
      RestsAs(b, side, r.id, r.price) || (rests && side == own && r.id == id && r.price == price)
  }

  lemma AddJoins(b: Lob, side: Side, price: int, qty: nat, expiry: nat)
    requires WellFormed(b)
    ensures var a := Add(b, side, price, qty, expiry);
      && Joined(b, a.lob, side, a.id, price, a.status in {Accepted, Status.Partial})
      && forall i | 0 <= i < |a.fills| ::
           && RestsAs(b, side.Opposite(), a.fills[i].restingId, a.fills[i].price)
           && if side == Bid then a.fills[i].price <= price else a.fills[i].price >= price
  {
    var k := AddAnswers(b, side, price, qty, expiry);
    hide WellFormed; hide Add; hide CrossQty; hide FilledQty; hide Full;
    var a := Add(b, side, price, qty, expiry);
    if price <= 0 || qty == 0 || |b.sides.bid| + |b.sides.ask| >= 4096 {
      FewerSame(b);
    } else {
      AnsweredJoins(b, side, price, qty, expiry, a, k);
    }
  }

  lemma AnsweredJoins(b: Lob, side: Side, price: int, qty: nat, expiry: nat, a: Added, k: nat)
    requires Answered(b, side, price, qty, expiry, a, k)
    ensures Joined(b, a.lob, side, a.id, price, a.status in {Accepted, Status.Partial})
    ensures forall i | 0 <= i < |a.fills| :: RestsAs(b, side.Opposite(), a.fills[i].restingId, a.fills[i].price)
  {
    hide CrossQty; hide FilledQty; hide Full;
    var opp, own, other := side.Opposite(), b.sides.Get(side), b.sides.Get(side.Opposite());
    forall i | 0 <= i < |a.fills|
      ensures RestsAs(b, opp, a.fills[i].restingId, a.fills[i].price)
    {
      assert other[i].id == a.fills[i].restingId && other[i].price == a.fills[i].price;
    }
    var m := Matched(a.fills, a.lob.sides.Get(opp), qty - FilledQty(a.fills));
    forall i: nat | i < |a.lob.sides.Get(opp)|
      ensures RestsAs(b, opp, a.lob.sides.Get(opp)[i].id, a.lob.sides.Get(opp)[i].price)
    {
      TookFewer(opp, other, price, m, i);
    }
    forall i: nat | i < |a.lob.sides.Get(side)|
      ensures var r := a.lob.sides.Get(side)[i];
        RestsAs(b, side, r.id, r.price)
        || (a.status in {Accepted, Status.Partial} && r.id == a.id && r.price == price)
    {
      var t := a.lob.sides.Get(side);
      if t == own {
        assert own[i].id == t[i].id;
      } else if i != k {
        assert t[i] == if i < k then own[i] else own[i - 1];
      }
    }
  }

  lemma WithoutFewer(b: Lob, id: nat)
    requires WellFormed(b)
    ensures Fewer(b, Cancel(b, id).0)
    ensures forall side: Side, i: nat | i < |Cancel(b, id).0.sides.Get(side)| :: Cancel(b, id).0.sides.Get(side)[i].id != id
  {
    CancelledIsDead(b, id);
    var side, j := CancelAnswers(b, id);
    var b' := Cancel(b, id).0;
    hide WellFormed; hide Cancel;
    forall x: Side, i: nat | i < |b'.sides.Get(x)|
      ensures RestsAs(b, x, b'.sides.Get(x)[i].id, b'.sides.Get(x)[i].price)
      ensures b'.sides.Get(x)[i].id != id
    {
      if RestsAt(b, side, j, id) && x == side {
        assert b'.sides.Get(x)[i] == b.sides.Get(x)[if i < j then i else i + 1];
      } else {
        assert b'.sides.Get(x)[i] == b.sides.Get(x)[i];
      }
    }
  }

  /** Who rests after a submission's own turn. */
  lemma ExecuteJoins(c: Core, r: Request)
    requires WellFormed(c.lob) && Admissible(c.lob, r)
    ensures var e, a := Execute(c, r), Entry(c, r);
      && FilledQty(a.fills) <= r.qty
      && Joined(c.lob, e.core.lob, r.side, a.id, EffectivePrice(r), a.status in {Accepted, Status.Partial} && !Drops(r, a))
  {
    var a := Entry(c, r);
    var p := EffectivePrice(r);
    AddFills(c.lob, r.side, p, r.qty, 0);
    AddJoins(c.lob, r.side, p, r.qty, 0);
    AddKeeps(c.lob, r.side, p, r.qty, 0);
    if Drops(r, a) {
      WithoutFewer(a.lob, a.id);
      hide WellFormed; hide Add; hide Cancel; hide Admissible; hide Trades; hide FilledQty;
      var b' := Cancel(a.lob, a.id).0;
      assert Execute(c, r).core.lob == b';
      forall side: Side, i: nat | i < |b'.sides.Get(side)|
        ensures RestsAs(c.lob, side, b'.sides.Get(side)[i].id, b'.sides.Get(side)[i].price)
      {
        var x := b'.sides.Get(side)[i];
        var j: nat :| j < |a.lob.sides.Get(side)| && a.lob.sides.Get(side)[j].id == x.id
          && a.lob.sides.Get(side)[j].price == x.price;
      }
    } else {
      hide WellFormed; hide Add; hide Cancel; hide Admissible; hide Trades; hide FilledQty;
      assert Execute(c, r).core.lob == a.lob;
    }
  }

  /** The closing events name the order, its side and its limit; when it rests, the last of them claims its price. */
  lemma TailClaims(r: Request, a: Added)
    requires FilledQty(a.fills) <= r.qty
    requires EffectivePrice(r) == LimitOf(r.kind, r.side, r.price)
    ensures var t := Tail(r, a);
      && t != [] && (forall i | 0 <= i < |t| :: t[i].OrderEvent? && t[i].id == a.id && t[i].side == r.side
                                             && t[i].kind == r.kind && t[i].price == r.price
                                             && t[i].etype != StopTriggered)
      && (a.status in {Accepted, Status.Partial} && !Drops(r, a) && FilledQty(a.fills) < r.qty ==>
            |t| == 1 && Claims(t[0], a.id))
  {
  }

  lemma StatedJoined(b: Lob, b': Lob, log: seq<Event>, evs: seq<Event>, own: Side, id: nat, price: int, rests: bool)
    requires Stated(b, log) && Joined(b, b', own, id, price, rests)
    requires forall i, x: nat | 0 <= i < |evs| && Claims(evs[i], x) :: x == id
    requires rests ==> Claimed(log + evs, id) == Claim(own, price)
    requires forall side: Side, i: nat | i < |b.sides.Get(side)| :: b.sides.Get(side)[i].id != id
    ensures Stated(b', log + evs)
  {
    hide Claimed;
    forall side: Side, i: nat | i < |b'.sides.Get(side)|
      ensures Claimed(log + evs, b'.sides.Get(side)[i].id) == Claim(side, b'.sides.Get(side)[i].price)
    {
      var r := b'.sides.Get(side)[i];
      if RestsAs(b, side, r.id, r.price) {
        StatedAs(b, log, side, r.id, r.price);
        ClaimedOther(log, evs, r.id);
      }
    }
  }

  lemma TailTally(r: Request, a: Added, log: seq<Event>)
    requires FilledQty(a.fills) <= r.qty && Numbered(log)
    ensures var t := log + Tail(r, a);
      && Numbered(t)
      && TallyOf(t) == if a.status == Status.Rejected then TallyOf(log).(rejected := TallyOf(log).rejected + 1)
                       else TallyOf(log).(accepted := TallyOf(log).accepted + 1)
  {
    hide TallyOf; hide Numbered; hide FilledQty;
    var t := Tail(r, a);
    TallyMore(log, t[0]);
    NumberedMore(log, t[0]);
    if Drops(r, a) {
      assert t == [t[0], t[1]] && log + [t[0]] + [t[1]] == log + t;
      TallyMore(log + [t[0]], t[1]);
      NumberedMore(log + [t[0]], t[1]);
    } else {
      assert t == [t[0]];
    }
  }

  /** The engine's numbers after a submission's own turn. */
  lemma ExecuteNumbers(c: Core, r: Request)
    ensures var e, a := Execute(c, r), Entry(c, r);
      if Admissible(c.lob, r) then
        && e.core.tradeSeq == c.tradeSeq + |a.fills|
        && e.core.lastPrice == (if a.fills == [] then c.lastPrice else a.fills[|a.fills| - 1].price)
        && e.core.accepted == c.accepted + (if a.status == Status.Rejected then 0 else 1)
        && e.core.rejected == c.rejected + (if a.status == Status.Rejected then 1 else 0)
        && e.traded == (a.fills != [])
      else e.core == c.(rejected := c.rejected + 1, log := e.core.log) && !e.traded
  {
    hide Add; hide Admissible; hide Cancel; hide Trades; hide FilledQty;
  }

  /** The price limit that a request announces is the one it is matched with. */
  lemma LimitIs(c: Core, r: Request)
    requires Admissible(c.lob, r)
    ensures EffectivePrice(r) == LimitOf(r.kind, r.side, r.price)
  {
  }

  /** An order that rests claims its price last. */
  lemma RestsClaimed(c: Core, r: Request, log: seq<Event>, ts: seq<Event>)
    requires WellFormed(c.lob) && Admissible(c.lob, r)
    requires var a := Entry(c, r);
      FilledQty(a.fills) <= r.qty && a.status in {Accepted, Status.Partial} && !Drops(r, a)
    ensures var a := Entry(c, r);
      Claimed(log + (ts + Tail(r, a)), a.id) == Claim(r.side, EffectivePrice(r))
  {
    var a := Entry(c, r);
    AddRests(c.lob, r.side, EffectivePrice(r), r.qty, 0);
    LimitIs(c, r);
    TailClaims(r, a);
    var t := Tail(r, a);
    hide Add; hide Tail; hide FilledQty; hide Claimed; hide Admissible; hide WellFormed; hide Find; hide HasId; hide Drops;
    assert t == [t[0]];
    ClaimedNow(log + ts, t[0]);
    assert log + ts + t == log + (ts + t);
  }

  lemma AdmittedAudited(c: Core, r: Request)
    requires WellFormed(c.lob) && Stated(c.lob, c.log) && Audited(c.log) && Justified(c.log) && Admissible(c.lob, r)
    ensures var log := Execute(c, r).core.log; Audited(log) && Justified(log)
  {
    hide WellFormed; hide Execute; hide Admissible; hide Add; hide Trades; hide Tail; hide FilledQty; hide Drops;
    hide Audited; hide Justified; hide RestsAs; hide Stated; hide Joined; hide EffectivePrice; hide LimitOf;
    var a := Entry(c, r);
    ExecuteLog(c, r);
    LimitIs(c, r);
    TailClaims(r, a);
    AddJoins(c.lob, r.side, EffectivePrice(r), r.qty, 0);
    var ts, tail := Trades(a.fills, c.tradeSeq, a.id, r.side), Tail(r, a);
    TradesAre(a.fills, c.tradeSeq, a.id, r.side);
    TradesKept(c.lob, c.log, a.fills, c.tradeSeq, a.id, r.side, tail);
    JustifiedMore(c.log, ts + tail);
  }

  lemma AdmittedTally(c: Core, r: Request)
    requires Numbered(c.log) && Admissible(c.lob, r)
    requires TallyOf(c.log) == Tally(c.tradeSeq, c.accepted, c.rejected, c.lastPrice)
    ensures var c' := Execute(c, r).core;
      Numbered(c'.log) && TallyOf(c'.log) == Tally(c'.tradeSeq, c'.accepted, c'.rejected, c'.lastPrice)
  {
    hide Execute; hide Admissible; hide Add; hide Trades; hide Tail; hide FilledQty; hide Numbered; hide TallyOf;
    var a := Entry(c, r);
    ExecuteLog(c, r);
    ExecuteNumbers(c, r);
    var ts := Trades(a.fills, c.tradeSeq, a.id, r.side);
    TradesTally(c.log, a.fills, c.tradeSeq, a.id, r.side);
    TailTally(r, a, c.log + ts);
    assert c.log + ts + Tail(r, a) == c.log + (ts + Tail(r, a));
  }

  lemma AdmittedStated(c: Core, r: Request)
    requires WellFormed(c.lob) && Stated(c.lob, c.log) && Admissible(c.lob, r)
    ensures Stated(Execute(c, r).core.lob, Execute(c, r).core.log)
  {
    hide WellFormed; hide Execute; hide Admissible; hide Add; hide Trades; hide Tail; hide FilledQty; hide Claimed;
    hide RestsAs; hide Stated; hide Drops; hide Joined; hide EffectivePrice; hide LimitOf;
    var a := Entry(c, r);
    ExecuteLog(c, r);
    ExecuteJoins(c, r);
    LimitIs(c, r);
    TailClaims(r, a);
    var ts, tail := Trades(a.fills, c.tradeSeq, a.id, r.side), Tail(r, a);
    TradesAre(a.fills, c.tradeSeq, a.id, r.side);
    var rests := a.status in {Accepted, Status.Partial} && !Drops(r, a);
    if rests {
      RestsClaimed(c, r, c.log, ts);
    }
    NewIdIsNone(c, r);
    StatedJoined(c.lob, Execute(c, r).core.lob, c.log, ts + tail, r.side, a.id, EffectivePrice(r), rests);
  }

  lemma NewIdIsNone(c: Core, r: Request)
    requires WellFormed(c.lob)
    ensures forall side: Side, i: nat | i < |c.lob.sides.Get(side)| :: c.lob.sides.Get(side)[i].id != Entry(c, r).id
  {
    FreshId(c.lob);
    WellFormedNext(c.lob);
    hide WellFormed;
    EntryId(c, r);
    hide Entry;
  }

  lemma AdmittedSound(c: Core, r: Request)
    requires Sound(c) && Admissible(c.lob, r)
    ensures Sound(Execute(c, r).core)
  {
    hide WellFormed; hide Execute; hide Admissible; hide Audited; hide Justified; hide Numbered; hide TallyOf;
    hide Stated;
    ExecuteKeeps(c, r);
    AdmittedAudited(c, r);
    AdmittedTally(c, r);
    AdmittedStated(c, r);
  }

  lemma FreshId(b: Lob)
    requires WellFormed(b)
    ensures forall side: Side, i: nat | i < |b.sides.Get(side)| :: 0 < b.sides.Get(side)[i].id < b.nextId
  {
  }

  /** Order events that fire nothing, while orders at most leave. */
  lemma QuietSound(c: Core, c': Core, evs: seq<Event>)
    requires Sound(c) && WellFormed(c'.lob) && c'.log == c.log + evs && Fewer(c.lob, c'.lob)
    requires forall i | 0 <= i < |evs| :: evs[i].OrderEvent? && evs[i].etype != StopTriggered
    requires forall k, side: Side, i: nat | 0 <= k < |evs| && i < |c'.lob.sides.Get(side)| ::
      !Claims(evs[k], c'.lob.sides.Get(side)[i].id)
    requires c'.tradeSeq == c.tradeSeq && c'.lastPrice == c.lastPrice
    requires TallyOf(c.log + evs) == TallyOf(c.log).(accepted := c'.accepted, rejected := c'.rejected)
    ensures Sound(c')
  {
    hide WellFormed; hide Claims; hide TallyOf; hide Audited; hide Justified; hide Numbered; hide Stated; hide Fewer;
    StatedFewer(c.lob, c'.lob, c.log, evs);
    AuditedSilent(c.log, evs);
    JustifiedMore(c.log, evs);
    SilentNumbered(c.log, evs);
  }

  lemma {:induction false} SilentNumbered(log: seq<Event>, evs: seq<Event>)
    requires Numbered(log) && forall i | 0 <= i < |evs| :: evs[i].OrderEvent?
    ensures Numbered(log + evs)
    decreases |evs|
  {
    hide Numbered;
    if evs == [] {
      assert log + evs == log;
    } else {
      NumberedMore(log, evs[0]);
      SilentNumbered(log + [evs[0]], evs[1..]);
      assert log + [evs[0]] + evs[1..] == log + evs;
    }
  }

  lemma ExecuteSound(c: Core, r: Request)
    requires Sound(c)
    ensures var e := Execute(c, r); Sound(e.core) && (e.traded ==> TradedAt(e.core.log, e.core.lastPrice))
  {
    if Admissible(c.lob, r) {
      AdmittedSound(c, r);
      TradedLast(c, r);
    } else {
      var evs := [OrderEvent(OrderRejected, 0, r.side, r.kind, r.price, r.qty, r.qty, 0)];
      ExecuteNumbers(c, r);
      assert Execute(c, r).core == c.(rejected := c.rejected + 1, log := c.log + evs);
      hide Admissible; hide Execute; hide Sound;
      TallyMore(c.log, evs[0]);
      FewerSame(c.lob);
      SoundParts(c);
      QuietSound(c, Execute(c, r).core, evs);
    }
  }

  lemma SoundParts(c: Core)
    requires Sound(c)
    ensures WellFormed(c.lob) && TallyOf(c.log) == Tally(c.tradeSeq, c.accepted, c.rejected, c.lastPrice)
  {
  }

  /** The last price is the price of the last fill. */
  lemma TradedLast(c: Core, r: Request)
    requires Admissible(c.lob, r)
    ensures var e := Execute(c, r); e.traded ==> TradedAt(e.core.log, e.core.lastPrice)
  {
    ExecuteLog(c, r);
    ExecuteNumbers(c, r);
    var e, a := Execute(c, r), Entry(c, r);
    hide Execute; hide Admissible; hide Add; hide Trades; hide Tail; hide FilledQty;
    TradesAre(a.fills, c.tradeSeq, a.id, r.side);
    if e.traded {
      var n := |a.fills| - 1;
      assert e.core.log[|c.log| + n] == Trades(a.fills, c.tradeSeq, a.id, r.side)[n];
    }
  }

  lemma FireSound(c: Core, i: nat, price: int)
    requires Sound(c) && i < |c.stops| && Triggered(c.stops[i], price) && TradedAt(c.log, price)
    ensures Sound(Fire(c, i))
  {
    hide WellFormed; hide TallyOf; hide Audited; hide Justified; hide Numbered; hide Stated; hide Fewer; hide TradedAt;
    var st := c.stops[i];
    var e := OrderEvent(StopTriggered, st.id, st.side, st.kind, st.trigger, st.qty, st.qty, 0);
    FewerSame(c.lob);
    StatedFewer(c.lob, c.lob, c.log, [e]);
    AuditedSilent(c.log, [e]);
    JustifiedFire(c.log, e, price);
    SilentNumbered(c.log, [e]);
    TallyMore(c.log, e);
  }

  lemma {:induction false} SubmitSound(c: Core, r: Request)
    requires Sound(c)
    ensures Sound(Submit(c, r).core)
    decreases Active(c.stops), 1, 0
  {
    hide Sound; hide Execute; hide TradedAt;
    ExecuteSound(c, r);
    ExecuteStops(c, r);
    var e := Execute(c, r);
    if e.traded && e.core.lastPrice != 0 {
      ScanSound(e.core, e.core.lastPrice, 0);
    }
  }

  lemma {:induction false} ScanSound(c: Core, price: int, i: nat)
    requires Sound(c) && TradedAt(c.log, price) && i <= |c.stops|
    ensures Sound(Scan(c, price, i))
    decreases Active(c.stops), 0, |c.stops| - i
  {
    hide Sound; hide TradedAt; hide Active; hide Reentry;
    if i < |c.stops| {
      if Triggered(c.stops[i], price) {
        FireCounts(c.stops, i);
        FireSound(c, i, price);
        var f, r := Fire(c, i), Reentry(c.stops[i]);
        SubmitSound(f, r);
        SoundFormed(f);
        var evs := SubmitConserves(f, r, 1);
        TradedAtLater(c.log, [f.log[|c.log|]], price);
        assert f.log == c.log + [f.log[|c.log|]];
        TradedAtLater(f.log, evs, price);
        ScanSound(Submit(f, r).core, price, i + 1);
      } else {
        ScanSound(c, price, i + 1);
      }
    }
  }

  lemma SoundFormed(c: Core)
    requires Sound(c)
    ensures WellFormed(c.lob)
  {
  }

  // ----- the other calls, and whole runs

  /** A sweep announces the cancellation of resting orders, and nothing else. */
  predicate Announcing(a: Call) {
    a.ExpireCall? ==>
      forall i | 0 <= i < |a.announced| :: a.announced[i].OrderEvent? && a.announced[i].etype == OrderCancelled
  }

  lemma {:induction false} UncountedTally(log: seq<Event>, evs: seq<Event>)
    requires forall i | 0 <= i < |evs| :: evs[i].OrderEvent? && evs[i].etype in {OrderCancelled, OrderModified}
    ensures TallyOf(log + evs) == TallyOf(log)
    decreases |evs|
  {
    hide TallyOf;
    if evs == [] {
      assert log + evs == log;
    } else {
      TallyMore(log, evs[0]);
      UncountedTally(log + [evs[0]], evs[1..]);
      assert log + [evs[0]] + evs[1..] == log + evs;
    }
  }

  /** Cancellations, while orders at most leave. */
  lemma CancelsSound(c: Core, c': Core, evs: seq<Event>)
    requires Sound(c) && WellFormed(c'.lob) && c'.log == c.log + evs && Fewer(c.lob, c'.lob)
    requires forall i | 0 <= i < |evs| :: evs[i].OrderEvent? && evs[i].etype == OrderCancelled
    requires c'.tradeSeq == c.tradeSeq && c'.lastPrice == c.lastPrice
    requires c'.accepted == c.accepted && c'.rejected == c.rejected
    ensures Sound(c')
  {
    hide Sound; hide WellFormed; hide TallyOf; hide Fewer;
    SoundParts(c);
    UncountedTally(c.log, evs);
    QuietSound(c, c', evs);
  }

  lemma StopSound(c: Core, a: Call)
    requires Sound(c) && a.StopCall?
    ensures Sound(Perform(c, a))
  {
    var c' := Perform(c, a);
    FreshId(c.lob);
    LaterFormed(c.lob);
    FewerSame(c.lob);
    hide Sound; hide WellFormed; hide FirstFree; hide RestsAs; hide TallyOf;
    var e := c'.log[|c.log|];
    assert c'.log == c.log + [e];
    TallyMore(c.log, e);
    SoundParts(c);
    QuietSound(c, c', [e]);
  }

  lemma CancelSound(c: Core, id: nat)
    requires Sound(c)
    ensures Sound(CancelOrder(c, id).0)
  {
    SoundFormed(c);
    WithoutFewer(c.lob, id);
    CancelKeeps(c.lob, id);
    hide Sound; hide WellFormed; hide Cancel; hide Live; hide SideHolding; hide Find; hide Fewer;
    var c' := CancelOrder(c, id).0;
    if Live(c.lob, id) {
      CancelsSound(c, c', [c'.log[|c.log|]]);
    }
  }

  lemma CancelStopSound(c: Core, id: nat)
    requires Sound(c)
    ensures Sound(CancelStop(c, id).0)
  {
    SoundFormed(c);
    FewerSame(c.lob);
    hide Sound; hide WellFormed; hide FindStop; hide Fewer;
    var c' := CancelStop(c, id).0;
    if FindStop(c.stops, id) < |c.stops| {
      CancelsSound(c, c', [c'.log[|c.log|]]);
    }
  }

  lemma ExpireSound(c: Core, now: nat, announced: seq<Event>)
    requires Sound(c) && Announcing(ExpireCall(now, announced))
    ensures Sound(Expire(c, now, announced))
  {
    SoundFormed(c);
    ExpireFormed(c, now, announced);
    ExpireFewer(c, now, announced);
    StopExpiriesCancel(c.stops, now);
    hide Sound; hide WellFormed; hide Fewer; hide StopExpiries; hide Survivors; hide ExpireStop;
    var c' := Expire(c, now, announced);
    assert c'.log == c.log + (StopExpiries(c.stops, now) + announced);
    CancelsSound(c, c', StopExpiries(c.stops, now) + announced);
  }

  lemma {:induction false} StopExpiriesCancel(s: seq<StopOrder>, now: nat)
    ensures forall i | 0 <= i < |StopExpiries(s, now)| ::
      StopExpiries(s, now)[i].OrderEvent? && StopExpiries(s, now)[i].etype == OrderCancelled
  {
    if s != [] {
      StopExpiriesCancel(s[1..], now);
    }
  }

  lemma ExpireFewer(c: Core, now: nat, announced: seq<Event>)
    requires WellFormed(c.lob)
    ensures Fewer(c.lob, Expire(c, now, announced).lob)
  {
    var b := c.lob;
    PositiveSide(Bid, b.sides.bid, b.nextId);
    PositiveSide(Ask, b.sides.ask, b.nextId);
    var bids := SurvivorsThin(b.sides.bid, now);
    var asks := SurvivorsThin(b.sides.ask, now);
    hide WellFormed; hide Survivors; hide StopExpiries; hide ExpireStop;
    var b' := Expire(c, now, announced).lob;
    forall side: Side, i: nat | i < |b'.sides.Get(side)|
      ensures RestsAs(b, side, b'.sides.Get(side)[i].id, b'.sides.Get(side)[i].price)
    {
      var at := if side == Bid then bids else asks;
      assert b'.sides.Get(side)[i] == b.sides.Get(side)[at[i]].(qty := b'.sides.Get(side)[i].qty);
    }
  }

  /** An amended order states its new price. */
  lemma ModifySound(c: Core, id: nat, price: int, qty: nat)
    requires Sound(c)
    ensures Sound(ModifyOrder(c, id, price, qty).0)
  {
    SoundFormed(c);
    ModifyKeeps(c.lob, id, price, qty);
    ModifyMoves(c.lob, id, price, qty);
    var c' := ModifyOrder(c, id, price, qty).0;
    hide WellFormed; hide Modify; hide Live; hide SideHolding; hide Find; hide Fewer; hide TallyOf; hide Audited;
    hide Justified; hide Numbered; hide Claimed; hide Stated;
    if !Live(c.lob, id) {
    } else if Modify(c.lob, id, price, qty).1 != Accepted {
      assert c.log + [] == c.log;
      hide Sound;
      CancelsSound(c, c', []);
    } else {
      var e := c'.log[|c.log|];
      assert c'.log == c.log + [e];
      AuditedSilent(c.log, [e]);
      JustifiedMore(c.log, [e]);
      SilentNumbered(c.log, [e]);
      UncountedTally(c.log, [e]);
      ModifyStated(c, id, price, qty);
    }
  }

  /** What is left of a side without its j-th order. */
  lemma LeftAs(b: Lob, side: Side, j: nat, i: nat)
    requires j < |b.sides.Get(side)| && i < |b.sides.Get(side)| - 1
    ensures var own := b.sides.Get(side);
      var r := (own[..j] + own[j + 1..])[i];
      RestsAs(b, side, r.id, r.price) && r == own[if i < j then i else i + 1]
  {
    var own := b.sides.Get(side);
    var n := if i < j then i else i + 1;
    assert (own[..j] + own[j + 1..])[i] == own[n];
  }

  /** The side of the amended order. */
  lemma AmendedSide(b: Lob, side: Side, j: nat, id: nat, price: int, qty: nat, k: nat, s: seq<Rest>, i: nat)
    requires j < |b.sides.Get(side)| && i < |s|
    requires forall n: nat | n < |b.sides.Get(side)| && b.sides.Get(side)[n].id == id :: n == j
    requires var own := b.sides.Get(side);
      StandsAt(side, own[..j] + own[j + 1..], k, Rest(id, price, qty, own[j].original, own[j].expiry), s)
    ensures if s[i].id == id then s[i].price == price else RestsAs(b, side, s[i].id, s[i].price)
  {
    hide RestsAs;
    var own := b.sides.Get(side);
    var t := own[..j] + own[j + 1..];
    if i != k {
      var n := if i < k then i else i - 1;
      assert s[i] == t[n];
      LeftAs(b, side, j, n);
    }
  }

  /** After an amendment the others stand at their prices, and the order at its new one if it was accepted. */
  lemma ModifyMoves(b: Lob, id: nat, price: int, qty: nat)
    requires WellFormed(b)
    ensures var (b', status) := Modify(b, id, price, qty);
      && (status != Accepted ==> Fewer(b, b'))
      && (status == Accepted ==>
            forall side: Side, i: nat | i < |b'.sides.Get(side)| ::
              var r := b'.sides.Get(side)[i];
              if r.id == id then side == SideHolding(b, id) && r.price == price else RestsAs(b, side, r.id, r.price))
  {
    var side, j, k := ModifyAnswers(b, id, price, qty);
    FewerSame(b);
    if price > 0 && qty > 0 && RestsAt(b, side, j, id) {
      OnlyHere(b, side, j, id);
      hide WellFormed; hide Modify; hide Full; hide SideHolding; hide StandsAt; hide RestsAs;
      var own, b' := b.sides.Get(side), Modify(b, id, price, qty).0;
      forall x: Side, i: nat | i < |b'.sides.Get(x)|
        ensures var r := b'.sides.Get(x)[i];
          if Modify(b, id, price, qty).1 == Accepted && r.id == id then x == SideHolding(b, id) && r.price == price
          else RestsAs(b, x, r.id, r.price)
      {
        if x != side {
          StandsAs(b, x, i);
        } else if Full(own[..j] + own[j + 1..], price) {
          LeftAs(b, side, j, i);
        } else {
          AmendedSide(b, side, j, id, price, qty, k, b'.sides.Get(side), i);
        }
      }
    }
  }

  lemma StandsAs(b: Lob, side: Side, i: nat)
    requires i < |b.sides.Get(side)|
    ensures RestsAs(b, side, b.sides.Get(side)[i].id, b.sides.Get(side)[i].price)
  {
  }

  lemma OnlyHere(b: Lob, side: Side, j: nat, id: nat)
    requires WellFormed(b) && RestsAt(b, side, j, id)
    ensures side == SideHolding(b, id)
    ensures forall x: Side, i: nat | i < |b.sides.Get(x)| && b.sides.Get(x)[i].id == id :: x == side && i == j
  {
  }

  lemma ModifyStated(c: Core, id: nat, price: int, qty: nat)
    requires WellFormed(c.lob) && Stated(c.lob, c.log) && Live(c.lob, id) && Modify(c.lob, id, price, qty).1 == Accepted
    ensures var c' := ModifyOrder(c, id, price, qty).0; Stated(c'.lob, c'.log)
  {
    ModifyMoves(c.lob, id, price, qty);
    var c' := ModifyOrder(c, id, price, qty).0;
    hide WellFormed; hide Modify; hide Find; hide Claimed; hide SideHolding; hide Live;
    var e := c'.log[|c.log|];
    assert c'.log == c.log + [e];
    ClaimedNow(c.log, e);
    forall side: Side, i: nat | i < |c'.lob.sides.Get(side)|
      ensures Claimed(c'.log, c'.lob.sides.Get(side)[i].id) == Claim(side, c'.lob.sides.Get(side)[i].price)
    {
      var r := c'.lob.sides.Get(side)[i];
      if r.id != id {
        StatedAs(c.lob, c.log, side, r.id, r.price);
        ClaimedOther(c.log, [e], r.id);
      }
    }
  }

  lemma PerformSound(c: Core, a: Call)
    requires Sound(c) && Announcing(a)
    ensures Sound(Perform(c, a))
  {
    hide Sound; hide Submit; hide CancelOrder; hide CancelStop; hide ModifyOrder; hide Expire; hide SubmitStop;
    match a {
      case SubmitCall(r) => SubmitSound(c, r);
      case StopCall(_, _, _, _, _, _) => StopSound(c, a);
      case CancelCall(id) => CancelSound(c, id);
      case CancelStopCall(id) => CancelStopSound(c, id);
      case ModifyCall(id, price, qty) => ModifySound(c, id, price, qty);
      case ExpireCall(now, announced) => ExpireSound(c, now, announced);
    }
  }

  lemma {:induction false} RunSound(c: Core, calls: seq<Call>)
    requires Sound(c) && forall i | 0 <= i < |calls| :: Announcing(calls[i])
    ensures Sound(RunCalls(c, calls))
    decreases |calls|
  {
    hide Sound; hide Perform;
    if calls != [] {
      PerformSound(c, calls[0]);
      RunSound(Perform(c, calls[0]), calls[1..]);
    }
  }

  /**
   Over every run of calls on a new engine. No order, incoming or resting, trades outside the limit it announced
   last; trades are numbered from 1 without gaps; the engine's counters and last price are those of its log; and
   no stop fired without a trade at its trigger or beyond.
   */
  lemma RunAudited(stops: seq<StopOrder>, calls: seq<Call>)
    requires forall i | 0 <= i < |calls| :: Announcing(calls[i])
    ensures var c := RunCalls(Core(EMPTY, stops, 0, 0, 0, 0, []), calls);
      && Audited(c.log) && Stated(c.lob, c.log) && Numbered(c.log) && Justified(c.log)
      && TallyOf(c.log) == Tally(c.tradeSeq, c.accepted, c.rejected, c.lastPrice)
  {
    var c := Core(EMPTY, stops, 0, 0, 0, 0, []);
    ReachableWellFormed([]);
    assert Run(EMPTY, []) == EMPTY;
    assert Sound(c);
    hide RunCalls;
    RunSound(c, calls);
  }

  // ----- what a fired stop becomes

  /** The first event of a submission that is not a trade names the request. */
  lemma Closing(c: Core, r: Request) returns (n: nat)
    ensures var log := Submit(c, r).core.log;
      && |c.log| + n < |log| && log[..|c.log|] == c.log
      && (forall i | |c.log| <= i < |c.log| + n :: log[i].Trade?)
      && var e := log[|c.log| + n];
        e.OrderEvent? && e.side == r.side && e.kind == r.kind && e.price == r.price && e.original == r.qty
  {
    var a := Entry(c, r);
    ExecuteLog(c, r);
    n := if Admissible(c.lob, r) then |a.fills| else 0;
    TradesAre(a.fills, c.tradeSeq, a.id, r.side);
    TailNames(r, a);
    LogGrows(c, r);
    hide Submit; hide Execute; hide Admissible; hide Trades; hide Tail; hide Add; hide FilledQty;
    var first, log := Execute(c, r).core.log, Submit(c, r).core.log;
    assert forall i | 0 <= i < |first| :: log[..|first|][i] == log[i];
    assert log[..|c.log|] == first[..|c.log|];
  }

  lemma TailNames(r: Request, a: Added)
    requires FilledQty(a.fills) <= r.qty
    ensures var e := Tail(r, a)[0];
      e.OrderEvent? && e.side == r.side && e.kind == r.kind && e.price == r.price && e.original == r.qty
  {
  }

  lemma {:induction false} LogGrows(c: Core, r: Request)
    ensures var first, log := Execute(c, r).core.log, Submit(c, r).core.log; |first| <= |log| && log[..|first|] == first
    decreases Active(c.stops), 1, 0
  {
    hide Execute;
    ExecuteStops(c, r);
    var e := Execute(c, r);
    if e.traded && e.core.lastPrice != 0 {
      ScanGrows(e.core, e.core.lastPrice, 0);
    }
  }

  lemma {:induction false} ScanGrows(c: Core, price: int, i: nat)
    requires i <= |c.stops|
    ensures var log := Scan(c, price, i).log; |c.log| <= |log| && log[..|c.log|] == c.log
    decreases Active(c.stops), 0, |c.stops| - i
  {
    hide Execute; hide Active; hide Reentry;
    if i < |c.stops| {
      if Triggered(c.stops[i], price) {
        FireCounts(c.stops, i);
        var f, r := Fire(c, i), Reentry(c.stops[i]);
        LogGrows(f, r);
        ExecuteGrows(f, r);
        var c1 := Submit(f, r).core;
        ScanGrows(c1, price, i + 1);
        assert c1.log[..|f.log|] == f.log;
        assert f.log[..|c.log|] == c.log;
      } else {
        ScanGrows(c, price, i + 1);
      }
    }
  }

  lemma ExecuteGrows(c: Core, r: Request)
    ensures var log := Execute(c, r).core.log; |c.log| <= |log| && log[..|c.log|] == c.log
  {
    ExecuteLog(c, r);
    hide Execute; hide Admissible; hide Trades; hide Tail; hide Add;
  }

  /**
   A fired stop is announced and comes back as an order of its side and quantity: a market order, or a limit order
   at the limit it was entered with.
   */
  lemma FiredBecomes(c: Core, i: nat) returns (n: nat)
    requires i < |c.stops| && c.stops[i].active
    ensures var st, log := c.stops[i], Submit(Fire(c, i), Reentry(c.stops[i])).core.log;
      && |c.log| + n < |log| && n > 0
      && log[|c.log|] == OrderEvent(StopTriggered, st.id, st.side, st.kind, st.trigger, st.qty, st.qty, 0)
      && (forall k | |c.log| < k < |c.log| + n :: log[k].Trade?)
      && var e := log[|c.log| + n];
        && e.OrderEvent? && e.side == st.side && e.original == st.qty
        && e.kind == (if st.kind == Stop then Market else Limit) && e.price == (if st.kind == Stop then 0 else st.limit)
  {
    var f := Fire(c, i);
    n := Closing(f, Reentry(c.stops[i]));
    hide Submit;
    var log := Submit(f, Reentry(c.stops[i])).core.log;
    assert log[..|f.log|][|c.log|] == log[|c.log|];
    n := n + 1;
  }
}
