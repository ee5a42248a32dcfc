/** Over whole runs of the engine: when a dormant order is left that the last price should have fired. */
module StopLaws {
  import opened Types
  import opened PriceTime
  import opened BookSpec
  import opened BookLaws
  import opened EngineSpec
  import opened EngineLaws

  /** One call of the engine's interface. A sweep announces the resting orders it cancels in an order of its own. */
  datatype Call =
    | SubmitCall(request: Request)
    | StopCall(kind: OrderType, side: Side, trigger: int, limit: int, qty: nat, expiry: nat)
    | CancelCall(id: nat)
    | CancelStopCall(id: nat)
    | ModifyCall(id: nat, price: int, qty: nat)
    | ExpireCall(now: nat, announced: seq<Event>)

  function Perform(c: Core, a: Call): Core {
    match a
    case SubmitCall(r) => Submit(c, r).core
    case StopCall(kind, side, trigger, limit, qty, expiry) => SubmitStop(c, kind, side, trigger, limit, qty, expiry).0
    case CancelCall(id) => CancelOrder(c, id).0
    case CancelStopCall(id) => CancelStop(c, id).0
    case ModifyCall(id, price, qty) => ModifyOrder(c, id, price, qty).0
    case ExpireCall(now, announced) => Expire(c, now, announced)
  }

  function RunCalls(c: Core, calls: seq<Call>): Core
    decreases |calls|
  {
    if calls == [] then c else RunCalls(Perform(c, calls[0]), calls[1..])
  }

  /** No active stop is triggered by the last trade price, if there is one. */
  ghost predicate NoneDue(c: Core) {
    c.lastPrice == 0 || Quiet(c)
  }

  /** A stop is entered whose trigger the last trade price already meets: it is not checked on entry. */
  predicate DueOnEntry(c: Core, a: Call) {
    && a.StopCall? && ValidStop(a.kind, a.trigger, a.limit, a.qty) && FirstFree(c.stops) < |c.stops|
    && c.lastPrice != 0 && if a.side == Bid then c.lastPrice >= a.trigger else c.lastPrice <= a.trigger
  }

  // ----- the book stays well formed

  function Shifted(at: seq<nat>): seq<nat> {
    seq(|at|, i requires 0 <= i < |at| => at[i] + 1)
  }

  /** The front of a side leaves. */
  lemma FrontLeaves(s: seq<Rest>, t: seq<Rest>, at: seq<nat>)
    requires s != [] && Thins(s[1..], t, at)
    ensures Thins(s, t, Shifted(at))
  {
    forall i | 0 <= i < |t|
      ensures t[i] == s[Shifted(at)[i]].(qty := t[i].qty) && 0 < t[i].qty <= s[Shifted(at)[i]].qty
    {
      assert s[1..][at[i]] == s[Shifted(at)[i]];
    }
  }

  /** Or it stays. */
  lemma FrontStays(s: seq<Rest>, t: seq<Rest>, at: seq<nat>)
    requires s != [] && s[0].qty > 0 && Thins(s, t, at) && forall i | 0 <= i < |at| :: at[i] > 0
    ensures Thins(s, [s[0]] + t, [0] + at)
  {
    var t', at' := [s[0]] + t, [0] + at;
    forall i | 0 <= i < |t'|
      ensures at'[i] < |s| && t'[i] == s[at'[i]].(qty := t'[i].qty) && 0 < t'[i].qty <= s[at'[i]].qty
    {
      assert i > 0 ==> t'[i] == t[i - 1] && at'[i] == at[i - 1];
    }
    forall i, j | 0 <= i < j < |t'|
      ensures at'[i] < at'[j]
    {
      assert at'[j] == at[j - 1] && (i > 0 ==> at'[i] == at[i - 1]);
    }
  }

  lemma {:induction false} SurvivorsThin(s: seq<Rest>, now: nat) returns (at: seq<nat>)
    requires forall i | 0 <= i < |s| :: s[i].qty > 0
    ensures Thins(s, Survivors(s, now), at)
  {
    hide Thins; hide Shifted;
    if s == [] {
      at := [];
      NoneThin();
    } else {
      var up := SurvivorsThin(s[1..], now);
      FrontLeaves(s, Survivors(s[1..], now), up);
      ShiftedUp(up);
      FrontStays(s, Survivors(s[1..], now), Shifted(up));
      at := (if Expired(s[0].expiry, now) then [] else [0]) + Shifted(up);
      assert [] + Survivors(s[1..], now) == Survivors(s[1..], now) && [] + Shifted(up) == Shifted(up);
    }
  }

  lemma ShiftedUp(at: seq<nat>)
    ensures forall i | 0 <= i < |Shifted(at)| :: Shifted(at)[i] > 0
  {
  }

  lemma NoneThin()
    ensures Thins([], [], [])
  {
  }

  lemma ExpireFormed(c: Core, now: nat, announced: seq<Event>)
    requires WellFormed(c.lob)
    ensures WellFormed(Expire(c, now, announced).lob)
  {
    hide Thins; hide Survivors; hide ExpireStop; hide StopExpiries;
    var b := c.lob;
    PositiveSide(Bid, b.sides.bid, b.nextId);
    PositiveSide(Ask, b.sides.ask, b.nextId);
    var bids := SurvivorsThin(b.sides.bid, now);
    var asks := SurvivorsThin(b.sides.ask, now);
    ThinsKeeps(Bid, b.sides.bid, Survivors(b.sides.bid, now), bids, b.nextId);
    ThinsKeeps(Ask, b.sides.ask, Survivors(b.sides.ask, now), asks, b.nextId);
    ThinsApart(b.sides.bid, Survivors(b.sides.bid, now), bids, b.sides.ask);
    ApartSym(Survivors(b.sides.bid, now), b.sides.ask);
    ThinsApart(b.sides.ask, Survivors(b.sides.ask, now), asks, Survivors(b.sides.bid, now));
    ApartSym(Survivors(b.sides.ask, now), Survivors(b.sides.bid, now));
  }

  lemma PerformFormed(c: Core, a: Call)
    requires WellFormed(c.lob)
    ensures WellFormed(Perform(c, a).lob)
  {
    hide WellFormed; hide Submit; hide Cancel; hide Modify; hide Expire; hide FirstFree; hide FindStop; hide Live;
    hide SideHolding; hide Find;
    match a {
      case SubmitCall(r) => SubmitQuiet(c, r);
      case StopCall(_, _, _, _, _, _) => LaterFormed(c.lob);
      case CancelCall(id) => CancelKeeps(c.lob, id);
      case CancelStopCall(_) =>
      case ModifyCall(id, price, qty) => ModifyKeeps(c.lob, id, price, qty);
      case ExpireCall(now, announced) => ExpireFormed(c, now, announced);
    }
  }

  // ----- what is due

  lemma StopDueIff(c: Core, a: Call)
    requires a.StopCall? && NoneDue(c)
    ensures NoneDue(Perform(c, a)) <==> !DueOnEntry(c, a)
  {
    hide FirstFree;
    var c' := Perform(c, a);
    var i := FirstFree(c.stops);
    if c'.stops != c.stops {
      assert c'.stops[i] == StopOrder(c.lob.nextId, a.side, a.kind, a.trigger, a.limit, a.qty, a.expiry, true);
      assert forall j | 0 <= j < |c.stops| && j != i :: c'.stops[j] == c.stops[j];
    }
  }

  lemma FewerDue(c: Core, c': Core)
    requires NoneDue(c) && c'.lastPrice == c.lastPrice && |c'.stops| == |c.stops|
    requires forall i | 0 <= i < |c.stops| :: c'.stops[i] == c.stops[i] || !c'.stops[i].active
    ensures NoneDue(c')
  {
  }

  /** Every call leaves nothing due, but exactly the entry of a stop that is due at once. */
  lemma PerformDueIff(c: Core, a: Call)
    requires WellFormed(c.lob) && NoneDue(c)
    ensures NoneDue(Perform(c, a)) <==> !DueOnEntry(c, a)
  {
    if a.StopCall? {
      StopDueIff(c, a);
    } else if a.SubmitCall? {
      hide WellFormed; hide Submit;
      SubmitQuiet(c, a.request);
    } else {
      hide NoneDue; hide WellFormed; hide Cancel; hide Modify; hide Live; hide SideHolding; hide Find; hide FindStop;
      hide Survivors; hide StopExpiries;
      FewerDue(c, Perform(c, a));
    }
  }

  ghost predicate AlwaysNoneDue(c: Core, calls: seq<Call>)
    decreases |calls|
  {
    NoneDue(c) && (calls != [] ==> AlwaysNoneDue(Perform(c, calls[0]), calls[1..]))
  }

  predicate NoneEntersDue(c: Core, calls: seq<Call>)
    decreases |calls|
  {
    calls != [] ==> !DueOnEntry(c, calls[0]) && NoneEntersDue(Perform(c, calls[0]), calls[1..])
  }

  /** Over every run of calls: no stop is ever overdue, exactly when none is entered that is due at once. */
  lemma {:induction false} RunDueIff(c: Core, calls: seq<Call>)
    requires WellFormed(c.lob) && NoneDue(c)
    ensures AlwaysNoneDue(c, calls) <==> NoneEntersDue(c, calls)
    decreases |calls|
  {
    if calls != [] {
      hide WellFormed; hide NoneDue; hide DueOnEntry; hide Perform;
      PerformFormed(c, calls[0]);
      PerformDueIff(c, calls[0]);
      if NoneDue(Perform(c, calls[0])) {
        RunDueIff(Perform(c, calls[0]), calls[1..]);
      }
    }
  }

  /** A sale at 10 has traded; a stop to buy at 10 or above then lies dormant. */
  lemma CanEnterDue(stops: seq<StopOrder>)
    requires stops != [] && forall i | 0 <= i < |stops| :: !stops[i].active
    ensures var c := Core(EMPTY, stops, 0, 0, 0, 0, []);
      var calls := [SubmitCall(Request(Limit, Ask, 10, 1)), SubmitCall(Request(Limit, Bid, 10, 1)),
                    StopCall(Stop, Bid, 10, 0, 1, 0)];
      WellFormed(c.lob) && NoneDue(c) && !AlwaysNoneDue(c, calls)
  {
    var c := Core(EMPTY, stops, 0, 0, 0, 0, []);
    var calls := [SubmitCall(Request(Limit, Ask, 10, 1)), SubmitCall(Request(Limit, Bid, 10, 1)),
                  StopCall(Stop, Bid, 10, 0, 1, 0)];
    ReachableWellFormed([]);
    assert Run(EMPTY, []) == EMPTY;
    OfferRests(c);
    var c1 := Perform(c, calls[0]);
    OfferTrades(c1);
    var c2 := Perform(c1, calls[1]);
    assert FirstFree(stops) == 0;
    assert DueOnEntry(c2, calls[2]);
    RunDueIff(c, calls);
    assert calls[1..][0] == calls[1] && calls[1..][1..][0] == calls[2];
    hide Perform; hide DueOnEntry;
    assert !NoneEntersDue(c2, calls[1..][1..]);
    assert !NoneEntersDue(c1, calls[1..]);
  }

  lemma OfferRests(c: Core)
    requires c.lob == EMPTY
    ensures var c' := Submit(c, Request(Limit, Ask, 10, 1)).core;
      c'.lob == Lob(Sided([], [Rest(1, 10, 1, 1, 0)]), 2) && c'.stops == c.stops
  {
    assert Prices(EMPTY.sides.ask) == {};
    assert Enter(Ask, EMPTY.sides.ask, Rest(1, 10, 1, 1, 0)) == [Rest(1, 10, 1, 1, 0)];
    assert Add(EMPTY, Ask, 10, 1, 0) == Added(Lob(Sided([], [Rest(1, 10, 1, 1, 0)]), 2), Accepted, 1, []);
  }

  lemma OfferTrades(c: Core)
    requires c.lob == Lob(Sided([], [Rest(1, 10, 1, 1, 0)]), 2)
    requires forall i | 0 <= i < |c.stops| :: !c.stops[i].active
    ensures var c' := Submit(c, Request(Limit, Bid, 10, 1)).core; c'.lastPrice == 10 && c'.stops == c.stops
  {
    var s := [Rest(1, 10, 1, 1, 0)];
    assert s[1..] == [] && Match(Ask, s[1..], 10, 0) == Matched([], [], 0);
    assert Match(Ask, s, 10, 1) == Matched([Fill(1, 10, 1)], [], 0);
    var e := Execute(c, Request(Limit, Bid, 10, 1));
    assert e.traded && e.core.lastPrice == 10 && e.core.stops == c.stops;
    hide Execute;
    NothingFires(e.core, 10, 0);
  }

  lemma {:induction false} NothingFires(c: Core, price: int, i: nat)
    requires i <= |c.stops| && forall j | 0 <= j < |c.stops| :: !c.stops[j].active
    ensures Scan(c, price, i) == c
    decreases |c.stops| - i
  {
    if i < |c.stops| {
      NothingFires(c, price, i + 1);
    }
  }
}
