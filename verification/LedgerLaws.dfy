/** The two ledgers over whole runs: the C portfolios settled by the pipeline, and the Python ones fed by the stream. */
module LedgerLaws {
  import opened Types
  import opened PriceTime
  import opened BookSpec
  import opened BookLaws
  import opened MatchLaws
  import opened EngineSpec
  import opened EngineLaws
  import opened PipelineSpec
  import opened PipelineLaws
  import opened Registry
  import opened RegistryLaws
  import opened CascadeLaws
  import opened BridgeSpec
  import A = Accounting
  import Portfolio

  // ----- every trade is proper

  ghost predicate ProperTrades(evs: seq<Event>) {
    forall i | 0 <= i < |evs| && evs[i].Trade? :: evs[i].tradeQty > 0 && evs[i].tradePrice > 0
  }

  lemma EntryProper(c: Core, r: Request)
    requires WellFormed(c.lob)
    ensures forall i | 0 <= i < |Entry(c, r).fills| :: Entry(c, r).fills[i].qty > 0 && Entry(c, r).fills[i].price > 0
  {
    EntryPositive(c, r);
    var opp := r.side.Opposite();
    MatchIsPrefix(opp, c.lob.sides.Get(opp), EffectivePrice(r), r.qty);
    hide Match; hide HasRoom; hide Enter;
  }

  lemma ExecuteProper(c: Core, r: Request)
    requires WellFormed(c.lob)
    ensures ProperTrades(Events(c, r))
  {
    EntryProper(c, r);
    hide WellFormed; hide Execute; hide Admissible; hide Trades; hide Entry;
    ExecuteLog(c, r);
    TradesAre(Entry(c, r).fills, c.tradeSeq, Entry(c, r).id, r.side);
  }

  lemma {:induction false} SubmitProper(c: Core, r: Request) returns (evs: seq<Event>)
    requires WellFormed(c.lob)
    ensures Submit(c, r).core.log == c.log + evs && ProperTrades(evs)
    decreases Active(c.stops), 1, 0
  {
    hide WellFormed; hide Execute; hide Events; hide ProperTrades;
    ExecuteProper(c, r);
    LogOf(c, r);
    ExecuteKeeps(c, r);
    ExecuteStops(c, r);
    evs := Events(c, r);
    var e := Execute(c, r);
    if e.traded && e.core.lastPrice != 0 {
      var more := ScanProper(e.core, e.core.lastPrice, 0);
      ProperConcat(evs, more);
      evs := evs + more;
    }
  }

  lemma ProperConcat(a: seq<Event>, b: seq<Event>)
    requires ProperTrades(a) && ProperTrades(b)
    ensures ProperTrades(a + b)
  {
  }

  lemma {:induction false} ScanProper(c: Core, price: int, i: nat) returns (evs: seq<Event>)
    requires WellFormed(c.lob) && i <= |c.stops|
    ensures Scan(c, price, i).log == c.log + evs && ProperTrades(evs)
    decreases Active(c.stops), 0, |c.stops| - i
  {
    hide WellFormed; hide Active; hide Reentry;
    if i == |c.stops| {
      evs := [];
    } else if Triggered(c.stops[i], price) {
      FireCounts(c.stops, i);
      var st, f, r := c.stops[i], Fire(c, i), Reentry(c.stops[i]);
      var fired := [OrderEvent(StopTriggered, st.id, st.side, st.kind, st.trigger, st.qty, st.qty, 0)];
      var own := SubmitProper(f, r);
      SubmitQuiet(f, r);
      var more := ScanProper(Submit(f, r).core, price, i + 1);
      hide ProperTrades;
      FiredProper(fired);
      ProperConcat(fired, own);
      ProperConcat(fired + own, more);
      evs := fired + own + more;
    } else {
      evs := ScanProper(c, price, i + 1);
    }
  }

  lemma FiredProper(evs: seq<Event>)
    requires forall i | 0 <= i < |evs| :: evs[i].OrderEvent?
    ensures ProperTrades(evs)
  {
  }

  /** Whatever a message makes the engine emit, trades have a positive price and quantity. */
  lemma SeenProper(p: Pipe, o: G.Raw, expiry: nat, riskOk: bool)
    requires WellFormed(p.core.lob)
    ensures ProperTrades(Staged(p, o, expiry, riskOk))
  {
    hide WellFormed; hide Submit; hide FirstFree; hide Cancel; hide Modify; hide FindStop; hide Live;
    hide SideHolding; hide Find; hide Passes;
    if o.action == G.ACT_NEW && o.kind < 4 {
      var evs := SubmitProper(p.core, RequestOf(o));
      EmittedIs(p.core, Submit(p.core, RequestOf(o)).core, evs);
    }
  }

  // ----- the C side

  /** What one event means for an account: the aggressor's leg first, then the resting order's. */
  function EventLegs(owners: seq<Owner>, e: Event, account: nat): seq<A.Leg> {
    if !e.Trade? then []
    else
      (if OwnerOf(owners, e.aggressor) == account then [A.Leg(A.Signed(e.aggressorSide, e.tradeQty), e.tradePrice)] else [])
      + (if OwnerOf(owners, e.resting) == account
         then [A.Leg(A.Signed(e.aggressorSide.Opposite(), e.tradeQty), e.tradePrice)] else [])
  }

  function AllLegs(owners: seq<Owner>, seen: seq<Event>, account: nat): seq<A.Leg> {
    if seen == [] then [] else EventLegs(owners, seen[0], account) + AllLegs(owners, seen[1..], account)
  }

  lemma LegSettles(seats: seq<Seat>, owner: nat, d: int, price: int, account: nat)
    requires Known(seats, account)
    ensures var t := Leg(seats, owner, d, price);
      Known(t, account) && t[account - 1].a
        == if owner == account then A.Fill(A.Truncate, seats[account - 1].a, d, price) else seats[account - 1].a
  {
    hide A.Fill;
  }

  lemma SettleLegs(owners: seq<Owner>, seats: seq<Seat>, e: Event, account: nat)
    requires Known(seats, account)
    ensures var t := Settle(owners, seats, e);
      Known(t, account) && t[account - 1].a == A.Run(A.Truncate, seats[account - 1].a, EventLegs(owners, e, account))
  {
    hide A.Fill; hide Leg; hide Known; hide OwnerOf; hide A.Run;
    if e.Trade? {
      var x, y := A.Leg(A.Signed(e.aggressorSide, e.tradeQty), e.tradePrice),
                  A.Leg(A.Signed(e.aggressorSide.Opposite(), e.tradeQty), e.tradePrice);
      var t := Leg(seats, OwnerOf(owners, e.aggressor), x.d, x.price);
      LegSettles(seats, OwnerOf(owners, e.aggressor), x.d, x.price, account);
      LegSettles(t, OwnerOf(owners, e.resting), y.d, y.price, account);
      KnownSeat(seats, account);
      KnownSeat(t, account);
      A.RunFew(A.Truncate, seats[account - 1].a, x, y);
      var none: seq<A.Leg> := [];
      assert [x] + none == [x] && none + [y] == [y] && [x] + [y] == [x, y] && none + none == [];
    } else {
      KnownSeat(seats, account);
      A.RunFew(A.Truncate, seats[account - 1].a, A.Leg(0, 0), A.Leg(0, 0));
    }
  }

  lemma KnownSeat(seats: seq<Seat>, account: nat)
    requires Known(seats, account)
    ensures 1 <= account <= |seats| && seats[account - 1].Taken?
  {
  }

  /** The settled account is the C accounting run over its legs. */
  lemma {:induction false} SettleAllLegs(owners: seq<Owner>, seats: seq<Seat>, seen: seq<Event>, account: nat)
    requires Known(seats, account)
    ensures var t := SettleAll(owners, seats, seen);
      Known(t, account) && t[account - 1].a == A.Run(A.Truncate, seats[account - 1].a, AllLegs(owners, seen, account))
    decreases |seen|
  {
    hide Known; hide Settle; hide EventLegs;
    KnownSeat(seats, account);
    if seen != [] {
      SettleLegs(owners, seats, seen[0], account);
      SettleAllLegs(owners, Settle(owners, seats, seen[0]), seen[1..], account);
      A.RunConcat(A.Truncate, seats[account - 1].a, EventLegs(owners, seen[0], account), AllLegs(owners, seen[1..], account));
    }
  }

  // ----- the Python side

  /** The account that the registry shows for an engine id. */
  function ShownAccount(r: Reg, x: nat): nat {
    AccountAt(r, SlotFor(r, GwFromMe(r, x)))
  }

  /** It is the one that the pipeline settles with. */
  ghost predicate ShowsOwners(r: Reg, owners: seq<Owner>) {
    forall x: nat :: ShownAccount(r, x) == OwnerOf(owners, x)
  }

  /** The same slots for the same accounts. */
  ghost predicate SameSlots(r: Reg, r': Reg) {
    && r'.base == r.base && |r'.orders| == |r.orders|
    && forall i | 0 <= i < |r.orders| ::
         r'.orders[i].orderId == r.orders[i].orderId && r'.orders[i].account == r.orders[i].account
  }

  lemma ShownAt(r: Reg, r': Reg, gw: nat)
    requires SameSlots(r, r')
    ensures AccountAt(r', SlotFor(r', gw)) == AccountAt(r, SlotFor(r, gw))
  {
  }

  lemma ShownStays(r: Reg, r': Reg, x: nat)
    requires SameSlots(r, r') && r'.meToGw == r.meToGw
    ensures ShownAccount(r', x) == ShownAccount(r, x)
  {
    hide SlotFor; hide AccountAt; hide SameSlots;
    ShownAt(r, r', GwFromMe(r, x));
  }

  /** An account sold to itself: the one case in which the two sides take the legs of a trade in different order. */
  predicate SelfSale(owners: seq<Owner>, e: Event, account: nat) {
    e.Trade? && e.aggressorSide == Ask && OwnerOf(owners, e.aggressor) == OwnerOf(owners, e.resting) == account
  }

  ghost predicate SameLegs(x: seq<A.Leg>, y: seq<A.Leg>, inOrder: bool) {
    multiset(x) == multiset(y) && (inOrder ==> x == y)
  }

  lemma SameConcat(x: seq<A.Leg>, y: seq<A.Leg>, x': seq<A.Leg>, y': seq<A.Leg>, inOrder: bool, inOrder': bool)
    requires SameLegs(x, y, inOrder) && SameLegs(x', y', inOrder')
    ensures SameLegs(x + x', y + y', inOrder && inOrder')
  {
  }

  lemma {:induction false} StreamConcat(a: seq<Message>, b: seq<Message>, account: nat)
    ensures Portfolio.StreamLegs(a + b, account) == Portfolio.StreamLegs(a, account) + Portfolio.StreamLegs(b, account)
    decreases |b|
  {
    hide Portfolio.MessageLegs;
    if b == [] {
      assert a + b == a;
    } else {
      var n := |b| - 1;
      assert (a + b)[..|a + b| - 1] == a + b[..n] && (a + b)[|a + b| - 1] == b[n];
      StreamConcat(a, b[..n], account);
    }
  }

  lemma StreamOne(m: Message, account: nat)
    ensures Portfolio.StreamLegs([m], account) == Portfolio.MessageLegs(m, account)
    ensures Portfolio.StreamLegs([], account) == []
  {
    hide Portfolio.MessageLegs;
    assert [m][..0] == [];
  }

  /** The message that a trade is published as. */
  lemma TradeSaid(r: Reg, owners: seq<Owner>, e: Event, account: nat) returns (m: Message, rest: seq<Message>)
    requires ShowsOwners(r, owners) && e.Trade?
    ensures OnEvent(r, e).published == r.published + ([m] + rest)
    ensures |rest| <= 1 && (rest != [] ==> rest[0].OrderMsg?)
    ensures SameLegs(EventLegs(owners, e, account), Portfolio.MessageLegs(m, account), !SelfSale(owners, e, account))
  {
    var aggGw, restGw := GwFromMe(r, e.aggressor), GwFromMe(r, e.resting);
    var agg, res := SlotFor(r, aggGw), SlotFor(r, restGw);
    assert AccountAt(r, agg) == OwnerOf(owners, e.aggressor) by {
      assert ShownAccount(r, e.aggressor) == OwnerOf(owners, e.aggressor);
    }
    assert AccountAt(r, res) == OwnerOf(owners, e.resting) by {
      assert ShownAccount(r, e.resting) == OwnerOf(owners, e.resting);
    }
    hide SlotFor; hide GwFromMe; hide ShowsOwners; hide OwnerOf; hide ApplyFill;
    FilledAccount(r.orders, agg, res, e.tradeQty);
    var r2 := FillAt(FillAt(r, agg, e.tradeQty), res, e.tradeQty);
    m := TradeMsg(e.tradeId, aggGw, restGw, e.aggressorSide, e.tradePrice, e.tradeQty, AccountAt(r2, agg), AccountAt(r2, res));
    rest := if res < |r2.orders| then [Snapshot(r2.orders[res])] else [];
    assert r.published + [m] + rest == r.published + ([m] + rest);
    LegsMatch(owners, e, m, account);
  }

  lemma FilledAccount(orders: seq<Slot>, i: nat, j: nat, qty: nat)
    ensures forall r: Reg | r.orders == orders ::
      var r2 := FillAt(FillAt(r, i, qty), j, qty);
      AccountAt(r2, i) == AccountAt(r, i) && AccountAt(r2, j) == AccountAt(r, j)
  {
  }

  lemma LegsMatch(owners: seq<Owner>, e: Event, m: Message, account: nat)
    requires e.Trade? && m.TradeMsg?
    requires m.aggressorSide == e.aggressorSide && m.tradePrice == e.tradePrice && m.tradeQty == e.tradeQty
    requires m.aggressorAccount == OwnerOf(owners, e.aggressor) && m.restingAccount == OwnerOf(owners, e.resting)
    ensures SameLegs(EventLegs(owners, e, account), Portfolio.MessageLegs(m, account), !SelfSale(owners, e, account))
  {
    hide OwnerOf; hide SameLegs;
    var buy, sell := A.Leg(e.tradeQty, e.tradePrice), A.Leg(-(e.tradeQty as int), e.tradePrice);
    var agg, rest := OwnerOf(owners, e.aggressor) == account, OwnerOf(owners, e.resting) == account;
    if e.aggressorSide == Bid {
      SameItself(EventLegs(owners, e, account), !SelfSale(owners, e, account));
    } else {
      Swapped(agg, rest, sell, buy);
    }
  }

  lemma SameItself(x: seq<A.Leg>, inOrder: bool)
    ensures SameLegs(x, x, inOrder)
  {
  }

  lemma Swapped(p: bool, q: bool, l: A.Leg, l': A.Leg)
    ensures SameLegs((if p then [l] else []) + (if q then [l'] else []), (if q then [l'] else []) + (if p then [l] else []),
                     !(p && q))
  {
    var none: seq<A.Leg> := [];
    assert none + [l] == [l] + none && none + [l'] == [l'] + none;
    assert multiset([l] + [l']) == multiset([l'] + [l]);
  }

  /** What one event adds to the stream. */
  lemma EventSaid(r: Reg, owners: seq<Owner>, e: Event, account: nat) returns (said: seq<Message>)
    requires ShowsOwners(r, owners)
    ensures OnEvent(r, e).published == r.published + said
    ensures SameLegs(EventLegs(owners, e, account), Portfolio.StreamLegs(said, account), !SelfSale(owners, e, account))
  {
    hide ShowsOwners; hide SelfSale; hide EventLegs; hide Portfolio.StreamLegs; hide Portfolio.MessageLegs; hide SameLegs;
    hide OnTrade; hide OnOrder;
    if e.Trade? {
      var m, rest := TradeSaid(r, owners, e, account);
      said := [m] + rest;
      StreamConcat([m], rest, account);
      StreamOne(m, account);
      OrdersSayNothing(rest, account);
      assert Portfolio.MessageLegs(m, account) + [] == Portfolio.MessageLegs(m, account);
    } else {
      OrderSaid(r, e);
      said := OnOrder(r, e).published[|r.published|..];
      OrdersSayNothing(said, account);
      NoEventLegs(owners, e, account);
      SameItself([], !SelfSale(owners, e, account));
    }
  }

  lemma NoEventLegs(owners: seq<Owner>, e: Event, account: nat)
    requires e.OrderEvent?
    ensures EventLegs(owners, e, account) == []
  {
  }

  lemma OrderSaid(r: Reg, e: Event)
    requires e.OrderEvent?
    ensures var p, p' := r.published, OnOrder(r, e).published;
      && |p| <= |p'| <= |p| + 1 && p'[..|p|] == p && forall i | |p| <= i < |p'| :: p'[i].OrderMsg?
  {
    hide ApplyEvent; hide SlotFor; hide GwFromMe; hide Terminal;
  }

  lemma OrdersSayNothing(said: seq<Message>, account: nat)
    requires |said| <= 1 && forall i | 0 <= i < |said| :: said[i].OrderMsg?
    ensures Portfolio.StreamLegs(said, account) == []
  {
    if said != [] {
      assert said == [said[0]];
      StreamOne(said[0], account);
    }
  }

  lemma EventShows(r: Reg, owners: seq<Owner>, e: Event)
    requires Inverse(r) && ShowsOwners(r, owners)
    ensures Inverse(OnEvent(r, e)) && ShowsOwners(OnEvent(r, e), owners)
  {
    hide InverseOf; hide OnEvent; hide ShownAccount; hide OwnerOf; hide Advance;
    OnEventIsPointwise(r, e);
    var r' := OnEvent(r, e);
    forall i | 0 <= i < |r.orders|
      ensures r'.orders[i].orderId == r.orders[i].orderId && r'.orders[i].account == r.orders[i].account
    {
      AdvanceIds(r.orders[i], e);
    }
    forall x: nat
      ensures ShownAccount(r', x) == OwnerOf(owners, x)
    {
      ShownStays(r, r', x);
    }
  }

  predicate NoSelfSale(owners: seq<Owner>, seen: seq<Event>, account: nat) {
    forall i | 0 <= i < |seen| :: !SelfSale(owners, seen[i], account)
  }

  /** What a replay adds to the stream: for every account the legs that the pipeline settles. */
  lemma {:induction false} ReplaySaid(r: Reg, owners: seq<Owner>, seen: seq<Event>, account: nat) returns (said: seq<Message>)
    requires Inverse(r) && ShowsOwners(r, owners)
    ensures OnAll(r, seen).published == r.published + said && ShowsOwners(OnAll(r, seen), owners)
    ensures SameLegs(AllLegs(owners, seen, account), Portfolio.StreamLegs(said, account), NoSelfSale(owners, seen, account))
    decreases |seen|
  {
    hide ShowsOwners; hide InverseOf; hide OnEvent; hide EventLegs; hide SelfSale; hide Portfolio.StreamLegs;
    if seen == [] {
      said := [];
      OrdersSayNothing(said, account);
    } else {
      var first := EventSaid(r, owners, seen[0], account);
      EventShows(r, owners, seen[0]);
      var more := ReplaySaid(OnEvent(r, seen[0]), owners, seen[1..], account);
      said := first + more;
      StreamConcat(first, more, account);
      SameConcat(EventLegs(owners, seen[0], account), Portfolio.StreamLegs(first, account),
                 AllLegs(owners, seen[1..], account), Portfolio.StreamLegs(more, account),
                 !SelfSale(owners, seen[0], account), NoSelfSale(owners, seen[1..], account));
      assert NoSelfSale(owners, seen, account) ==> NoSelfSale(owners, seen[1..], account);
    }
  }

  // ----- one message

  /** Every id has the same account on both sides, and none is owned that has yet to be issued. */
  ghost predicate Accounted(b: Bridge) {
    && ShowsOwners(b.reg, b.pipe.owners)
    && forall i | 0 <= i < |b.pipe.owners| :: b.pipe.owners[i].id < b.pipe.core.lob.nextId
  }

  /** A new order gets an owner but no slot under its engine id. */
  predicate Disowns(b: Bridge, o: G.Raw, gw: nat, expiry: nat, riskOk: bool) {
    && o.action == G.ACT_NEW && Passes(b.pipe, o, riskOk) && |b.pipe.owners| < MAX_OWNERS
    && var id := MatchNew(b.pipe.core, o, expiry).1;
      id != 0 && o.account != 0 && !(Tracked(b.reg, o, gw) && id <= REGISTRY_CAP)
  }

  /** Registering takes a slot that no engine id leads to. */
  lemma RegisterShows(r: Reg, o: G.Raw, gw: nat, last: nat, nextId: nat, x: nat)
    requires Inverse(r) && Issued(r, last, nextId) && last < gw
    ensures ShownAccount(Register(r, o, gw), x) == ShownAccount(r, x)
  {
  }

  /** Binding leads the new id to the new slot, and leaves every other id alone. */
  lemma BindShows(r: Reg, o: G.Raw, gw: nat, me: nat, x: nat)
    requires Inverse(r) && (Tracked(r, o, gw) ==> r.orders[gw - r.base - 1] == NewSlot(o, gw))
    ensures ShownAccount(Bind(r, o, gw, me), x)
         == if x == me && Tracked(r, o, gw) && 1 <= me <= REGISTRY_CAP then o.account else ShownAccount(r, x)
  {
    InverseSizes(r);
    hide InverseOf;
    var r' := Bind(r, o, gw, me);
    BindSame(r, o, gw, me);
    if x == me && Tracked(r, o, gw) && 1 <= me <= REGISTRY_CAP {
      assert GwFromMe(r', x) == gw;
      ShownAt(r, r', gw);
    } else {
      assert GwFromMe(r', x) == GwFromMe(r, x);
      ShownAt(r, r', GwFromMe(r, x));
    }
  }

  lemma BindSame(r: Reg, o: G.Raw, gw: nat, me: nat)
    ensures SameSlots(r, Bind(r, o, gw, me))
  {
  }

  lemma {:induction false} UnissuedUnowned(owners: seq<Owner>, nextId: nat, x: nat)
    requires nextId <= x && forall i | 0 <= i < |owners| :: owners[i].id < nextId
    ensures OwnerOf(owners, x) == 0
  {
    if owners != [] {
      UnissuedUnowned(owners[1..], nextId, x);
    }
  }

  lemma RejectShows(r: Reg, o: G.Raw, gw: nat, x: nat) returns (said: seq<Message>)
    ensures RejectUntouched(r, o, gw).published == r.published + said && |said| <= 1
    ensures said != [] ==> said[0].OrderMsg?
    ensures ShownAccount(RejectUntouched(r, o, gw), x) == ShownAccount(r, x)
  {
    var r' := RejectUntouched(r, o, gw);
    said := r'.published[|r.published|..];
    ShownStays(r, r', x);
  }

  /** What routing does to the ownership map. */
  lemma RoutedOwners(p: Pipe, o: G.Raw, expiry: nat)
    ensures var p', id := Routed(p, o, expiry), MatchNew(p.core, o, expiry).1;
      p'.owners == if o.action == G.ACT_NEW && id != 0 && |p.owners| < MAX_OWNERS then p.owners + [Owner(id, o.account)]
                   else p.owners
  {
    hide MatchNew; hide MatchCancel; hide ModifyOrder;
  }

  /** The accounts of the two sides part exactly when a new order is owned and not mapped. */
  lemma MappedShowsIff(b: Bridge, o: G.Raw, gw: nat, expiry: nat, riskOk: bool, last: nat)
    requires BridgeSpec.Inv(b, last) && last < gw && Accounted(b)
    ensures var p' := Handle(b.pipe, o, expiry, riskOk, Staged(b.pipe, o, expiry, riskOk));
      var r2 := Bind(Register(b.reg, o, gw), o, gw, NewId(b.pipe.owners, p'.owners));
      && Inverse(r2) && (ShowsOwners(r2, p'.owners) <==> !Disowns(b, o, gw, expiry, riskOk))
      && forall i | 0 <= i < |p'.owners| :: p'.owners[i].id < p'.core.lob.nextId
  {
    hide InStep; hide InverseOf; hide WellFormed; hide Routed; hide Seen; hide MatchNew; hide SettleAll;
    hide IdsIssued; hide ShownAccount; hide OwnerOf; hide Register; hide Bind; hide Issued; hide Passes; hide AllAgree;
    var p, c := b.pipe, b.pipe.core;
    var p' := Handle(p, o, expiry, riskOk, Staged(p, o, expiry, riskOk));
    var me, r1 := NewId(p.owners, p'.owners), Register(b.reg, o, gw);
    RegisterKeeps(b.reg, o, gw, last, c);
    RoutedMoves(p, o, expiry);
    RoutedOwners(p, o, expiry);
    BindKeeps(r1, o, gw, me, c.lob.nextId, p'.core.lob.nextId);
    var r2 := Bind(r1, o, gw, me);
    forall x: nat
      ensures ShownAccount(r2, x) == (if x == me && Tracked(r1, o, gw) && 1 <= me <= REGISTRY_CAP then o.account
                                      else OwnerOf(p.owners, x))
      ensures OwnerOf(p'.owners, x) == if me != 0 && x == me then o.account else OwnerOf(p.owners, x)
    {
      RegisterShows(b.reg, o, gw, last, c.lob.nextId, x);
      BindShows(r1, o, gw, me, x);
      if me != 0 {
        OwnerAppend(p.owners, Owner(me, o.account), x);
      }
    }
    if me != 0 {
      UnissuedUnowned(p.owners, c.lob.nextId, me);
    }
    if Disowns(b, o, gw, expiry, riskOk) {
      assert ShownAccount(r2, me) != OwnerOf(p'.owners, me);
    }
  }

  lemma {:induction false} LegsProper(owners: seq<Owner>, seen: seq<Event>, account: nat)
    requires ProperTrades(seen)
    ensures A.Proper(AllLegs(owners, seen, account))
  {
    hide OwnerOf;
    if seen != [] {
      assert forall i | 0 <= i < |seen| - 1 :: seen[1..][i] == seen[i + 1];
      LegsProper(owners, seen[1..], account);
    }
  }

  lemma HandledSeats(p: Pipe, o: G.Raw, expiry: nat, riskOk: bool)
    ensures var seen := Staged(p, o, expiry, riskOk);
      var p' := Handle(p, o, expiry, riskOk, seen);
      p'.seats == SettleAll(p'.owners, p.seats, seen)
  {
    hide MatchNew; hide MatchCancel; hide ModifyOrder; hide Passes; hide Emitted;
    SettleFew(p.owners, p.seats);
  }

  /** An account in the C table and the messages published about it, over some stretch of a run. */
  ghost predicate InTandem(b: Bridge, b': Bridge, account: nat, legs: seq<A.Leg>, said: seq<Message>, inOrder: bool) {
    && Known(b.pipe.seats, account) && Known(b'.pipe.seats, account)
    && b'.pipe.seats[account - 1].a == A.Run(A.Truncate, b.pipe.seats[account - 1].a, legs)
    && b'.reg.published == b.reg.published + said
    && SameLegs(legs, Portfolio.StreamLegs(said, account), inOrder) && A.Proper(legs)
  }

  /** One message: the pipeline settles and the registry publishes the same legs. */
  lemma AcceptLedgers(b: Bridge, o: G.Raw, gw: nat, expiry: nat, riskOk: bool, last: nat, account: nat)
    returns (legs: seq<A.Leg>, said: seq<Message>)
    requires BridgeSpec.Inv(b, last) && last < gw && Accounted(b) && !Disowns(b, o, gw, expiry, riskOk)
    requires Known(b.pipe.seats, account)
    ensures var seen := Staged(b.pipe, o, expiry, riskOk);
      var b' := Accept(b, o, gw, expiry, riskOk, seen);
      Accounted(b') && InTandem(b, b', account, legs, said, NoSelfSale(b'.pipe.owners, seen, account))
  {
    hide InStep; hide InverseOf; hide WellFormed; hide Seen; hide SettleAll; hide IdsIssued; hide ShownAccount;
    hide OwnerOf; hide Issued; hide Passes; hide AllAgree; hide Disowns; hide OnAll; hide Handle; hide Known;
    hide Portfolio.StreamLegs; hide AllLegs; hide SelfSale; hide Register; hide Bind; hide RejectUntouched; hide Staged;
    hide A.Run; hide A.Proper; hide SameLegs;
    var seen := Staged(b.pipe, o, expiry, riskOk);
    var p' := Handle(b.pipe, o, expiry, riskOk, seen);
    MappedShowsIff(b, o, gw, expiry, riskOk, last);
    var r2 := Bind(Register(b.reg, o, gw), o, gw, NewId(b.pipe.owners, p'.owners));
    HandledSeats(b.pipe, o, expiry, riskOk);
    SettleAllLegs(p'.owners, b.pipe.seats, seen, account);
    legs := AllLegs(p'.owners, seen, account);
    SeenProper(b.pipe, o, expiry, riskOk);
    LegsProper(p'.owners, seen, account);
    var replayed := ReplaySaid(r2, p'.owners, seen, account);
    var r3 := OnAll(r2, seen);
    var synthetic := RejectShows(r3, o, gw, 0);
    forall x: nat
      ensures ShownAccount(RejectUntouched(r3, o, gw), x) == ShownAccount(r3, x)
    {
      var _ := RejectShows(r3, o, gw, x);
    }
    said := replayed + synthetic;
    SilentSaid(replayed, synthetic, account);
    Unpublished(b.reg, o, gw, NewId(b.pipe.owners, p'.owners));
    assert b.reg.published + replayed + synthetic == b.reg.published + said;
  }

  lemma Unpublished(r: Reg, o: G.Raw, gw: nat, me: nat)
    ensures Bind(Register(r, o, gw), o, gw, me).published == r.published
  {
  }

  lemma SilentSaid(said: seq<Message>, more: seq<Message>, account: nat)
    requires |more| <= 1 && (more != [] ==> more[0].OrderMsg?)
    ensures Portfolio.StreamLegs(said + more, account) == Portfolio.StreamLegs(said, account)
  {
    StreamConcat(said, more, account);
    OrdersSayNothing(more, account);
    assert Portfolio.StreamLegs(said, account) + [] == Portfolio.StreamLegs(said, account);
  }

  // ----- whole runs

  predicate NoneDisowned(b: Bridge, ms: seq<Inbound>)
    decreases |ms|
  {
    ms == [] ||
      (!Disowns(b, ms[0].order, ms[0].gw, ms[0].expiry, ms[0].riskOk) && NoneDisowned(BridgeSpec.After(b, ms[0]), ms[1..]))
  }

  predicate NoSelfSales(b: Bridge, ms: seq<Inbound>, account: nat)
    decreases |ms|
  {
    ms == [] ||
      (var m, b' := ms[0], BridgeSpec.After(b, ms[0]);
       NoSelfSale(b'.pipe.owners, Staged(b.pipe, m.order, m.expiry, m.riskOk), account) && NoSelfSales(b', ms[1..], account))
  }

  lemma Tandem(b: Bridge, b1: Bridge, b2: Bridge, account: nat, legs: seq<A.Leg>, said: seq<Message>, inOrder: bool,
               legs': seq<A.Leg>, said': seq<Message>, inOrder': bool)
    requires InTandem(b, b1, account, legs, said, inOrder) && InTandem(b1, b2, account, legs', said', inOrder')
    ensures InTandem(b, b2, account, legs + legs', said + said', inOrder && inOrder')
  {
    hide Known; hide A.Run; hide Portfolio.StreamLegs; hide SameLegs;
    KnownSeat(b.pipe.seats, account);
    KnownSeat(b1.pipe.seats, account);
    KnownSeat(b2.pipe.seats, account);
    A.RunConcat(A.Truncate, b.pipe.seats[account - 1].a, legs, legs');
    StreamConcat(said, said', account);
    SameConcat(legs, Portfolio.StreamLegs(said, account), legs', Portfolio.StreamLegs(said', account), inOrder, inOrder');
    assert b.reg.published + said + said' == b.reg.published + (said + said');
  }

  lemma TandemStart(b: Bridge, account: nat)
    requires Known(b.pipe.seats, account)
    ensures InTandem(b, b, account, [], [], true)
  {
    OrdersSayNothing([], account);
    assert b.reg.published + [] == b.reg.published;
    hide A.Fill;
    A.RunFew(A.Truncate, b.pipe.seats[account - 1].a, A.Leg(0, 0), A.Leg(0, 0));
  }

  lemma {:induction false} RunTandem(b: Bridge, last: nat, ms: seq<Inbound>, account: nat)
    returns (legs: seq<A.Leg>, said: seq<Message>)
    requires BridgeSpec.Inv(b, last) && Orderly(b, last, ms) && Accounted(b) && NoneDisowned(b, ms)
    requires Known(b.pipe.seats, account)
    ensures InTandem(b, BridgeSpec.RunAll(b, ms), account, legs, said, NoSelfSales(b, ms, account))
    decreases |ms|
  {
    hide BridgeSpec.Inv; hide Loses; hide Accept; hide Staged; hide Accounted; hide Disowns; hide Known; hide NoSelfSale;
    if ms == [] {
      legs, said := [], [];
      TandemStart(b, account);
    } else {
      var m := ms[0];
      var b1 := BridgeSpec.After(b, m);
      var inOrder := NoSelfSale(b1.pipe.owners, Staged(b.pipe, m.order, m.expiry, m.riskOk), account);
      AcceptKeeps(b, m.order, m.gw, m.expiry, m.riskOk, last);
      legs, said := AcceptLedgers(b, m.order, m.gw, m.expiry, m.riskOk, last, account);
      var legs', said' := RunTandem(b1, m.gw, ms[1..], account);
      Tandem(b, b1, BridgeSpec.RunAll(b, ms), account, legs, said, inOrder, legs', said', NoSelfSales(b1, ms[1..], account));
      legs, said := legs + legs', said + said';
    }
  }

  /**
   The two ledgers over a run in which every order that gets an owner gets a slot: fed with everything the stream
   carried, the Python account has the same cash and the same position as the C account, and unless the account sold
   to itself it is the same account.
   */
  lemma LedgersAgree(b: Bridge, last: nat, ms: seq<Inbound>, account: nat) returns (said: seq<Message>)
    requires BridgeSpec.Inv(b, last) && Orderly(b, last, ms) && Accounted(b) && NoneDisowned(b, ms)
    requires Known(b.pipe.seats, account)
    ensures var b' := BridgeSpec.RunAll(b, ms);
      && Known(b'.pipe.seats, account) && b'.reg.published == b.reg.published + said
      && var start, c := b.pipe.seats[account - 1].a, b'.pipe.seats[account - 1].a;
      var python := A.Run(A.Floor, start, Portfolio.StreamLegs(said, account));
      && python.cash == c.cash && python.net == c.net
      && (NoSelfSales(b, ms, account) && start.avg >= 0 ==> python == c)
  {
    hide BridgeSpec.Inv; hide Orderly; hide Accounted; hide NoneDisowned; hide A.Run; hide NoSelfSales; hide A.Proper;
    var legs;
    legs, said := RunTandem(b, last, ms, account);
    var start, heard := b.pipe.seats[account - 1].a, Portfolio.StreamLegs(said, account);
    hide Portfolio.StreamLegs;
    A.WorthOrder(A.Truncate, A.Floor, start, legs, heard, 0);
    A.WorthOrder(A.Truncate, A.Floor, start, legs, heard, 1);
    if start.avg >= 0 {
      A.RoundingsAgreeRun(start, legs);
    }
  }

  lemma OpeningAccounted(base: nat, stops: seq<StopOrder>, seats: seq<Seat>)
    ensures Accounted(BridgeSpec.Opening(base, stops, seats))
  {
  }
}
