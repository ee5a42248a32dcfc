/** What the engine keeps over submissions and the stop cascades they start. */
module EngineLaws {
  import opened Arith
  import opened Types
  import opened PriceTime
  import opened BookSpec
  import opened MatchLaws
  import opened BookLaws
  import opened EngineSpec

  // ----- one execution

  lemma ExecuteKeeps(c: Core, r: Request)
    requires WellFormed(c.lob)
    ensures WellFormed(Execute(c, r).core.lob)
    ensures Uncrossed(c.lob) ==> Uncrossed(Execute(c, r).core.lob)
  {
    hide WellFormed; hide Uncrossed; hide Add; hide Cancel; hide Admissible;
    if Admissible(c.lob, r) {
      var p := EffectivePrice(r);
      var a := Add(c.lob, r.side, p, r.qty, 0);
      AddKeeps(c.lob, r.side, p, r.qty, 0);
      CancelKeeps(a.lob, a.id);
      if Uncrossed(c.lob) {
        AddUncrossed(c.lob, r.side, p, r.qty, 0);
        CancelUncrossed(a.lob, a.id);
      }
    }
  }

  /** A trade leaves a valid last price; anything else leaves the last price alone. */
  lemma ExecutePrice(c: Core, r: Request)
    requires WellFormed(c.lob)
    ensures var e := Execute(c, r);
      && e.core.stops == c.stops
      && (e.traded ==> e.core.lastPrice > 0)
      && (!e.traded ==> e.core.lastPrice == c.lastPrice)
  {
    if Admissible(c.lob, r) {
      var opp := r.side.Opposite();
      MatchIsPrefix(opp, c.lob.sides.Get(opp), EffectivePrice(r), r.qty);
    }
  }

  // ----- after a trade no stop is left that the last price fires

  ghost predicate Quiet(c: Core) {
    forall i | 0 <= i < |c.stops| :: !Triggered(c.stops[i], c.lastPrice)
  }

  lemma {:induction false} SubmitQuiet(c: Core, r: Request)
    requires WellFormed(c.lob)
    ensures var e := Submit(c, r);
      && WellFormed(e.core.lob)
      && (e.traded ==> Quiet(e.core))
      && (!e.traded ==> e.core.lastPrice == c.lastPrice && e.core.stops == c.stops)
    decreases Active(c.stops), 1, 0
  {
    hide WellFormed; hide Execute; hide Quiet;
    ExecuteKeeps(c, r);
    ExecutePrice(c, r);
    var e := Execute(c, r);
    if e.traded {
      ScanQuiet(e.core, e.core.lastPrice, 0);
    }
  }

  /** The scan may fire slots that the current price would not, but it leaves none that it would. */
  lemma {:induction false} ScanQuiet(c: Core, price: int, i: nat)
    requires WellFormed(c.lob) && i <= |c.stops|
    requires Quiet(c) || (c.lastPrice == price && forall j | 0 <= j < i :: !Triggered(c.stops[j], price))
    ensures WellFormed(Scan(c, price, i).lob) && Quiet(Scan(c, price, i))
    decreases Active(c.stops), 0, |c.stops| - i
  {
    hide WellFormed;
    if i < |c.stops| {
      if Triggered(c.stops[i], price) {
        FireCounts(c.stops, i);
        SubmitQuiet(Fire(c, i), Reentry(c.stops[i]));
        var c1 := Submit(Fire(c, i), Reentry(c.stops[i])).core;
        assert Quiet(c) ==> Quiet(Fire(c, i));
        ScanQuiet(c1, price, i + 1);
      } else {
        ScanQuiet(c, price, i + 1);
      }
    }
  }

  /** The book does not cross itself, whatever the submission sets off. */
  lemma {:induction false} SubmitUncrossed(c: Core, r: Request)
    requires WellFormed(c.lob) && Uncrossed(c.lob)
    ensures var e := Submit(c, r); WellFormed(e.core.lob) && Uncrossed(e.core.lob)
    decreases Active(c.stops), 1, 0
  {
    hide WellFormed; hide Uncrossed; hide Execute;
    ExecuteKeeps(c, r);
    ExecuteStops(c, r);
    var e := Execute(c, r);
    if e.traded && e.core.lastPrice != 0 {
      ScanUncrossed(e.core, e.core.lastPrice, 0);
    }
  }

  lemma {:induction false} ScanUncrossed(c: Core, price: int, i: nat)
    requires WellFormed(c.lob) && Uncrossed(c.lob) && i <= |c.stops|
    ensures WellFormed(Scan(c, price, i).lob) && Uncrossed(Scan(c, price, i).lob)
    decreases Active(c.stops), 0, |c.stops| - i
  {
    hide WellFormed; hide Uncrossed;
    if i < |c.stops| {
      if Triggered(c.stops[i], price) {
        FireCounts(c.stops, i);
        SubmitUncrossed(Fire(c, i), Reentry(c.stops[i]));
        ScanUncrossed(Submit(Fire(c, i), Reentry(c.stops[i])).core, price, i + 1);
      } else {
        ScanUncrossed(c, price, i + 1);
      }
    }
  }

  // ----- ids do not come back

  lemma {:induction false} EnterIds(side: Side, s: seq<Rest>, r: Rest, id: nat)
    requires NoId(s, id) && r.id != id
    ensures NoId(Enter(side, s, r), id)
  {
    if s != [] && !Better(side, r.price, s[0].price) {
      EnterIds(side, s[1..], r, id);
    }
  }

  lemma MatchIds(opp: Side, s: seq<Rest>, limit: int, q: nat, id: nat)
    requires NoId(s, id)
    ensures NoId(Match(opp, s, limit, q).rest, id)
  {
    MatchIsPrefix(opp, s, limit, q);
  }

  lemma {:induction false} WithoutIds(s: seq<Rest>, id: nat, other: nat)
    requires NoId(s, id)
    ensures NoId(Without(s, other), id)
  {
    if s != [] {
      WithoutIds(s[1..], id, other);
    }
  }

  /** id is not resting on either side. */
  ghost predicate Dead(b: Lob, id: nat) {
    NoId(b.sides.bid, id) && NoId(b.sides.ask, id)
  }

  /** The submitted order rests when everything it sets off is over. */
  ghost predicate OwnRests(c: Core, r: Request) {
    var e := Submit(c, r);
    e.result.id != 0 && !Dead(e.core.lob, e.result.id)
  }

  lemma ExecuteDead(c: Core, r: Request, id: nat)
    requires id < c.lob.nextId && Dead(c.lob, id)
    ensures Dead(Execute(c, r).core.lob, id) && c.lob.nextId <= Execute(c, r).core.lob.nextId
  {
    if Admissible(c.lob, r) {
      hide NoId; hide Match; hide Enter; hide Without; hide HasRoom; hide Live;
      var opp, own, p := r.side.Opposite(), c.lob.sides.Get(r.side), EffectivePrice(r);
      MatchIds(opp, c.lob.sides.Get(opp), p, r.qty, id);
      var m := Match(opp, c.lob.sides.Get(opp), p, r.qty);
      EnterIds(r.side, own, Rest(c.lob.nextId, p, m.left, r.qty, 0), id);
      var a := Add(c.lob, r.side, p, r.qty, 0);
      hide Add;
      WithoutIds(a.lob.sides.bid, id, a.id);
      WithoutIds(a.lob.sides.ask, id, a.id);
    }
  }

  lemma {:induction false} SubmitDead(c: Core, r: Request, id: nat)
    requires id < c.lob.nextId && Dead(c.lob, id)
    ensures Dead(Submit(c, r).core.lob, id)
    decreases Active(c.stops), 1, 0
  {
    hide Execute; hide Dead;
    ExecuteDead(c, r, id);
    var e := Execute(c, r);
    if e.traded && e.core.lastPrice != 0 {
      ExecuteStops(c, r);
      ScanDead(e.core, e.core.lastPrice, 0, id);
    }
  }

  lemma ExecuteStops(c: Core, r: Request)
    ensures Execute(c, r).core.stops == c.stops
  {
  }

  lemma {:induction false} ScanDead(c: Core, price: int, i: nat, id: nat)
    requires i <= |c.stops| && id < c.lob.nextId && Dead(c.lob, id)
    ensures Dead(Scan(c, price, i).lob, id)
    decreases Active(c.stops), 0, |c.stops| - i
  {
    hide Dead; hide Execute;
    if i < |c.stops| {
      if Triggered(c.stops[i], price) {
        FireCounts(c.stops, i);
        SubmitDead(Fire(c, i), Reentry(c.stops[i]), id);
        SubmitNext(Fire(c, i), Reentry(c.stops[i]));
        ScanDead(Submit(Fire(c, i), Reentry(c.stops[i])).core, price, i + 1, id);
      } else {
        ScanDead(c, price, i + 1, id);
      }
    }
  }

  /** The id counter never falls. */
  lemma {:induction false} SubmitNext(c: Core, r: Request)
    ensures c.lob.nextId <= Submit(c, r).core.lob.nextId
    decreases Active(c.stops), 1, 0
  {
    var e := Execute(c, r);
    assert c.lob.nextId <= e.core.lob.nextId;
    hide Execute;
    if e.traded && e.core.lastPrice != 0 {
      ExecuteStops(c, r);
      ScanNext(e.core, e.core.lastPrice, 0);
    }
  }

  lemma {:induction false} ScanNext(c: Core, price: int, i: nat)
    requires i <= |c.stops|
    ensures c.lob.nextId <= Scan(c, price, i).lob.nextId
    decreases Active(c.stops), 0, |c.stops| - i
  {
    hide Execute;
    if i < |c.stops| {
      if Triggered(c.stops[i], price) {
        FireCounts(c.stops, i);
        SubmitNext(Fire(c, i), Reentry(c.stops[i]));
        ScanNext(Submit(Fire(c, i), Reentry(c.stops[i])).core, price, i + 1);
      } else {
        ScanNext(c, price, i + 1);
      }
    }
  }

  // ----- immediate-or-cancel

  lemma CancelledIsDead(b: Lob, id: nat)
    requires WellFormed(b)
    ensures Dead(Cancel(b, id).0, id)
  {
    if Live(b, id) {
      var side := SideHolding(b, id);
      var at := WithoutThins(b.sides.Get(side), id);
    }
  }

  /** An order that was filled or refused does not rest. */
  lemma UnrestedIsDead(b: Lob, side: Side, price: int, qty: nat)
    requires WellFormed(b)
    ensures var a := Add(b, side, price, qty, 0);
      a.status in {Filled, Rejected} && a.id != 0 ==> Dead(a.lob, a.id) && a.id < a.lob.nextId
  {
    NewIdFresh(Bid, b.sides.bid, b.nextId);
    NewIdFresh(Ask, b.sides.ask, b.nextId);
    MatchIds(side.Opposite(), b.sides.Get(side.Opposite()), price, qty, b.nextId);
  }

  lemma FilledLeavesNothing(b: Lob, side: Side, price: int, qty: nat)
    requires 0 < b.nextId
    ensures var a := Add(b, side, price, qty, 0);
      && (a.id == 0 ==> a.status == Rejected)
      && (a.id != 0 ==> a.id == b.nextId && a.lob.nextId == b.nextId + 1)
      && (a.status in {Accepted, Partial} ==> FilledQty(a.fills) < qty)
  {
    MatchConserves(side.Opposite(), b.sides.Get(side.Opposite()), price, qty);
  }

  /** An IOC order never rests, not even after the stops that its trades fired. */
  lemma IocNeverRests(c: Core, r: Request)
    requires WellFormed(c.lob) && r.kind == Ioc
    ensures var e := Submit(c, r); e.result.id != 0 ==> Dead(e.core.lob, e.result.id)
  {
    var e := Execute(c, r);
    assert 0 < c.lob.nextId;
    if Admissible(c.lob, r) && e.result.id != 0 {
      hide Admissible; hide WellFormed; hide Dead; hide Cancel; hide Add;
      var p := EffectivePrice(r);
      var a := Add(c.lob, r.side, p, r.qty, 0);
      AddKeeps(c.lob, r.side, p, r.qty, 0);
      CancelledIsDead(a.lob, a.id);
      CancelNext(a.lob, a.id);
      UnrestedIsDead(c.lob, r.side, p, r.qty);
      FilledLeavesNothing(c.lob, r.side, p, r.qty);
      assert Dead(e.core.lob, a.id) && a.id < e.core.lob.nextId;
      if e.traded && e.core.lastPrice != 0 {
        ScanDead(e.core, e.core.lastPrice, 0, a.id);
      }
    }
  }

  lemma CancelNext(b: Lob, id: nat)
    ensures Cancel(b, id).0.nextId == b.nextId
  {
  }

  // ----- fill-or-kill

  /** An FOK order is filled completely, or the book, the stops and the last price stay as they were. */
  lemma FokAllOrNothing(c: Core, r: Request)
    requires WellFormed(c.lob) && r.kind == Fok
    ensures var e := Submit(c, r);
      || (e.traded && e.result.filled == r.qty && e.result.remain == 0 && e.result.status == Filled)
      || (!e.traded && e.result.filled == 0 && e.core.stops == c.stops && e.core.lastPrice == c.lastPrice
          && e.core.lob == c.lob)
    ensures Submit(c, r).traded <==> Admissible(c.lob, r) && Count(c.lob) < MAX_ORDERS
  {
    if Admissible(c.lob, r) {
      var opp := r.side.Opposite();
      var s := c.lob.sides.Get(opp);
      MatchTakesAll(opp, s, r.price, r.qty);
      MatchConserves(opp, s, r.price, r.qty);
    }
  }

  // ----- average price

  lemma {:induction false} NotionalBounds(fills: seq<Fill>, lo: int, hi: int)
    requires forall i | 0 <= i < |fills| :: lo <= fills[i].price <= hi
    ensures lo * FilledQty(fills) <= Notional(fills) <= hi * FilledQty(fills)
  {
    if fills != [] {
      NotionalBounds(fills[1..], lo, hi);
      OneMoreFill(lo, hi, fills[0].price, fills[0].qty, FilledQty(fills[1..]), Notional(fills[1..]));
    }
  }

  lemma OneMoreFill(lo: int, hi: int, p: int, q: nat, t: nat, n: int)
    requires lo <= p <= hi && lo * t <= n <= hi * t
    ensures lo * (q + t) <= p * q + n <= hi * (q + t)
  {
    Scale(lo, p, q);
    Scale(p, hi, q);
    assert lo * (q + t) == lo * q + lo * t && hi * (q + t) == hi * q + hi * t;
  }

  /** The reported average is within half a unit of the exact one and between the extreme fill prices. */
  lemma AvgPriceBounds(fills: seq<Fill>, lo: int, hi: int)
    requires FilledQty(fills) > 0
    requires forall i | 0 <= i < |fills| :: lo <= fills[i].price <= hi
    ensures var q, avg := FilledQty(fills), AvgPrice(fills);
      && 0 < 2 * (avg * q - Notional(fills)) + q <= 2 * q
      && lo <= avg <= hi
  {
    NotionalBounds(fills, lo, hi);
    Rounding(Notional(fills), FilledQty(fills), lo, hi);
  }

  lemma StepScale(a: int, b: int, q: nat)
    ensures a < b ==> a * q + q <= b * q
  {
    if a < b {
      Scale(a + 1, b, q);
    }
  }

  lemma Rounding(n: int, q: nat, lo: int, hi: int)
    requires q > 0 && lo * q <= n <= hi * q
    ensures var avg := (n + q / 2) / q;
      0 < 2 * (avg * q - n) + q <= 2 * q && lo <= avg <= hi
  {
    var avg := (n + q / 2) / q;
    assert n + q / 2 == avg * q + (n + q / 2) % q;
    StepScale(avg, lo, q);
    StepScale(hi, avg, q);
  }

  // ----- expiry

  lemma {:induction false} KeptAll(s: seq<Rest>)
    ensures Kept(s, {}) == s
  {
    if s != [] {
      KeptAll(s[1..]);
    }
  }

  /** Cancelling one more order. */
  lemma {:induction false} KeptWithout(s: seq<Rest>, gone: set<nat>, id: nat)
    ensures Without(Kept(s, gone), id) == Kept(s, gone + {id})
  {
    if s != [] {
      KeptWithout(s[1..], gone, id);
      var k, k' := Kept(s[1..], gone), Kept(s[1..], gone + {id});
      assert ([s[0]] + k)[1..] == k;
      assert [] + k == k && [] + k' == k';
    }
  }

  lemma {:induction false} KeptFrom(s: seq<Rest>, gone: set<nat>, r: Rest)
    ensures r in Kept(s, gone) <==> r in s && r.id !in gone
  {
    if s != [] {
      KeptFrom(s[1..], gone, r);
      assert r in s <==> r == s[0] || r in s[1..];
    }
  }

  /** Cancelling exactly the expired orders, in any order, leaves the survivors in their places. */
  lemma {:induction false} KeptSurvivors(s: seq<Rest>, gone: set<nat>, now: nat)
    requires forall i | 0 <= i < |s| :: s[i].id in gone <==> Expired(s[i].expiry, now)
    ensures Kept(s, gone) == Survivors(s, now)
  {
    if s != [] {
      KeptSurvivors(s[1..], gone, now);
    }
  }

  /** Both sides without the orders in `gone`. */
  ghost predicate IsKept(b: Lob, b': Lob, gone: set<nat>) {
    && b'.nextId == b.nextId
    && b'.sides.bid == Kept(b.sides.bid, gone) && b'.sides.ask == Kept(b.sides.ask, gone)
  }

  /** Cancelling one more expired order in the course of the sweep. */
  lemma SweepStep(b: Lob, c: Lob, gone: set<nat>, side: Side, r: Rest, now: nat)
    requires WellFormed(b) && WellFormed(c) && IsKept(b, c, gone)
    requires Live(c, r.id) && side == SideHolding(c, r.id) && r in c.sides.Get(side)
    ensures IsKept(b, Cancel(c, r.id).0, gone + {r.id})
    ensures Cancel(c, r.id).1 == Accepted && Count(Cancel(c, r.id).0) == Count(c) - 1
    ensures r in b.sides.Get(side) && r.id !in gone
  {
    var own, opp := c.sides.Get(side), c.sides.Get(side.Opposite());
    HoldingSide(c, r.id);
    ApartSym(c.sides.bid, c.sides.ask);
    ApartNoId(own, opp, r.id);
    PositiveSide(side, own, c.nextId);
    hide WellFormed; hide SideOk; hide Thins; hide Without; hide Kept; hide Live; hide HasId; hide DistinctIds;
    hide Apart; hide NoId;
    WithoutAbsent(opp, r.id);
    var at := WithoutThins(own, r.id);
    KeptWithout(b.sides.bid, gone, r.id);
    KeptWithout(b.sides.ask, gone, r.id);
    KeptFrom(b.sides.Get(side), gone, r);
  }

  /** An id names one resting order. */
  lemma OneOrder(b: Lob, side: Side, r: Rest, side': Side, r': Rest)
    requires WellFormed(b) && r in b.sides.Get(side) && r' in b.sides.Get(side') && r.id == r'.id
    ensures side == side' && r == r'
  {
  }

  /** The events report expired orders of b, each once. */
  ghost predicate Announces(b: Lob, events: seq<Event>, now: nat) {
    && (forall k | 0 <= k < |events| :: AnExpiry(b, events[k], now))
    && (forall j, k | 0 <= j < k < |events| :: events[j].id != events[k].id)
  }

  ghost predicate AnExpiry(b: Lob, e: Event, now: nat)
    ensures AnExpiry(b, e, now) ==> e.OrderEvent?
  {
    exists side: Side, i: nat | i < |b.sides.Get(side)| ::
      Expired(b.sides.Get(side)[i].expiry, now) && e == OrderExpiry(side, b.sides.Get(side)[i])
  }

  /** The ids announced so far are those in `gone`. */
  ghost predicate Swept(b: Lob, c: Lob, events: seq<Event>, gone: set<nat>, now: nat) {
    && IsKept(b, c, gone) && AllExpired(b, gone, now) && Announces(b, events, now)
    && (forall k | 0 <= k < |events| :: events[k].id in gone)
    && |events| + Count(c) == Count(b)
  }

  lemma SweptStart(b: Lob, now: nat)
    ensures Swept(b, b, [], {}, now)
  {
    KeptAll(b.sides.bid);
    KeptAll(b.sides.ask);
  }

  lemma SweptMore(b: Lob, c: Lob, events: seq<Event>, gone: set<nat>, side: Side, r: Rest, now: nat)
    requires WellFormed(b) && WellFormed(c) && Swept(b, c, events, gone, now) && Expired(r.expiry, now)
    requires Live(c, r.id) && side == SideHolding(c, r.id) && r in c.sides.Get(side)
    ensures Cancel(c, r.id).1 == Accepted
    ensures Swept(b, Cancel(c, r.id).0, events + [OrderExpiry(side, r)], gone + {r.id}, now)
  {
    hide WellFormed; hide Cancel; hide Live; hide SideHolding; hide IsKept; hide Count;
    SweepStep(b, c, gone, side, r, now);
    AllExpiredStep(b, gone, side, r, now);
    hide AllExpired;
    var i :| 0 <= i < |b.sides.Get(side)| && b.sides.Get(side)[i] == r;
    assert AnExpiry(b, OrderExpiry(side, r), now);
  }

  /** Everything named in `gone` had expired. */
  ghost predicate AllExpired(b: Lob, gone: set<nat>, now: nat) {
    forall side: Side, i: nat | i < |b.sides.Get(side)| ::
      b.sides.Get(side)[i].id in gone ==> Expired(b.sides.Get(side)[i].expiry, now)
  }

  lemma AllExpiredStep(b: Lob, gone: set<nat>, side: Side, r: Rest, now: nat)
    requires WellFormed(b) && AllExpired(b, gone, now) && r in b.sides.Get(side) && Expired(r.expiry, now)
    ensures AllExpired(b, gone + {r.id}, now)
  {
    hide WellFormed;
    forall side': Side, i: nat | i < |b.sides.Get(side')| && b.sides.Get(side')[i].id == r.id
      ensures Expired(b.sides.Get(side')[i].expiry, now)
    {
      OneOrder(b, side, r, side', b.sides.Get(side')[i]);
    }
  }

  /** No order of b has expired. */
  ghost predicate NoneExpired(b: Lob, now: nat) {
    forall side: Side, i: nat | i < |b.sides.Get(side)| :: !Expired(b.sides.Get(side)[i].expiry, now)
  }

  lemma SweptEnd(b: Lob, c: Lob, events: seq<Event>, gone: set<nat>, now: nat)
    requires Swept(b, c, events, gone, now) && NoneExpired(c, now)
    ensures Announces(b, events, now) && |events| == Count(b) - Count(c)
    ensures c == Lob(Sided(Survivors(b.sides.bid, now), Survivors(b.sides.ask, now)), b.nextId)
  {
    forall side: Side
      ensures c.sides.Get(side) == Survivors(b.sides.Get(side), now)
    {
      var s := b.sides.Get(side);
      forall i | 0 <= i < |s|
        ensures s[i].id in gone <==> Expired(s[i].expiry, now)
      {
        KeptFrom(s, gone, s[i]);
        if s[i].id !in gone {
          var k :| 0 <= k < |c.sides.Get(side)| && c.sides.Get(side)[k] == s[i];
          assert !Expired(c.sides.Get(side)[k].expiry, now);
        }
      }
      KeptSurvivors(s, gone, now);
    }
    assert c.sides.Get(Bid) == Survivors(b.sides.Get(Bid), now) && c.sides.Get(Ask) == Survivors(b.sides.Get(Ask), now);
  }
}
