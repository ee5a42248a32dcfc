/** Registry and book under everything that one submission sets off: its own trades and those of the stops it fires. */
module CascadeLaws {
  import opened PriceTime
  import opened BookSpec
  import opened BookLaws
  import opened EngineSpec
  import opened EngineLaws
  import opened PipelineLaws
  import opened Registry
  import opened RegistryLaws
  import opened FillLaws

  /** No dormant order waits under this id. */
  ghost predicate NotStop(stops: seq<StopOrder>, id: nat) {
    forall i | 0 <= i < |stops| && stops[i].active :: stops[i].id != id
  }

  /** Dormant orders wait under issued ids, and only such ids have traded. */
  ghost predicate IdsIssued(c: Core) {
    && (forall i | 0 <= i < |c.stops| && c.stops[i].active :: c.stops[i].id < c.lob.nextId)
    && (forall x: nat | c.lob.nextId <= x :: Traded(c.log, x) == 0)
  }

  lemma SubmitIssues(c: Core, r: Request)
    requires WellFormed(c.lob)
    ensures Execute(c, r).result.id in {0, c.lob.nextId}
    ensures Execute(c, r).result.id != 0 ==> Execute(c, r).core.lob.nextId == c.lob.nextId + 1
    ensures c.lob.nextId <= Execute(c, r).core.lob.nextId
  {
    ExecuteLog(c, r);
    hide WellFormed; hide Execute;
    WellFormedNext(c.lob);
    EntryId(c, r);
  }

  /** A slot that takes part in the agreement, at some state of the engine: it agrees with the book and with the log. */
  ghost predicate InStep(s: Slot, c: Core) {
    && WellFormed(c.lob) && 0 < s.meId < c.lob.nextId && NotStop(c.stops, s.meId)
    && Agrees(s, Left(c.lob, s.meId)) && Counted(s, c.log)
  }

  /** One order, before the stops it fires. */
  lemma ExecuteInStep(c: Core, r: Request, s: Slot)
    requires InStep(s, c)
    ensures Execute(c, r).core.log == c.log + Events(c, r)
    ensures InStep(AdvanceAll(s, Events(c, r)), Execute(c, r).core)
  {
    hide WellFormed; hide Left; hide Execute; hide Agrees; hide AdvanceAll; hide NotStop; hide Counted;
    SubmitIssues(c, r);
    OthersAgree(c, r, s);
    OthersCounted(c, r, s);
    LogOf(c, r);
    ExecuteKeeps(c, r);
    ExecuteStops(c, r);
    AdvanceSame(s, Events(c, r));
  }

  lemma LogOf(c: Core, r: Request)
    ensures Execute(c, r).core.log == c.log + Events(c, r)
  {
    hide Execute; hide Admissible; hide Trades; hide Tail;
    ExecuteLog(c, r);
  }

  /** A stop fires: its event is about no slot that takes part. */
  lemma FireInStep(c: Core, i: nat, s: Slot) returns (evs: seq<Event>)
    requires InStep(s, c) && i < |c.stops| && c.stops[i].active
    ensures Fire(c, i).log == c.log + evs && AdvanceAll(s, evs) == s && InStep(s, Fire(c, i))
  {
    hide WellFormed; hide Left; hide Agrees; hide Counted;
    var st := c.stops[i];
    evs := [OrderEvent(StopTriggered, st.id, st.side, st.kind, st.trigger, st.qty, st.qty, 0)];
    AdvanceElsewhere(s, evs);
    CountElsewhere(s, c.log, evs);
  }

  /** A slot keeps in step with the book through the whole cascade of a submission. */
  lemma {:induction false} SubmitInStep(c: Core, r: Request, s: Slot) returns (evs: seq<Event>)
    requires InStep(s, c)
    ensures Submit(c, r).core.log == c.log + evs && InStep(AdvanceAll(s, evs), Submit(c, r).core)
    decreases Active(c.stops), 1, 0
  {
    hide InStep; hide Execute; hide AdvanceAll; hide Events;
    ExecuteInStep(c, r, s);
    ExecuteStops(c, r);
    evs := Events(c, r);
    var e := Execute(c, r);
    if e.traded && e.core.lastPrice != 0 {
      var more := ScanInStep(e.core, e.core.lastPrice, 0, AdvanceAll(s, evs));
      AdvanceConcat(s, evs, more);
      evs := evs + more;
    }
  }

  lemma {:induction false} ScanInStep(c: Core, price: int, i: nat, s: Slot) returns (evs: seq<Event>)
    requires InStep(s, c) && i <= |c.stops|
    ensures Scan(c, price, i).log == c.log + evs && InStep(AdvanceAll(s, evs), Scan(c, price, i))
    decreases Active(c.stops), 0, |c.stops| - i
  {
    hide InStep; hide AdvanceAll; hide Active; hide Reentry;
    if i == |c.stops| {
      evs := [];
      AdvanceElsewhere(s, evs);
    } else if Triggered(c.stops[i], price) {
      FireCounts(c.stops, i);
      var fired := FireInStep(c, i, s);
      var own := SubmitInStep(Fire(c, i), Reentry(c.stops[i]), s);
      var t := AdvanceAll(s, own);
      var more := ScanInStep(Submit(Fire(c, i), Reentry(c.stops[i])).core, price, i + 1, t);
      AdvanceConcat(s, fired, own);
      AdvanceConcat(s, fired + own, more);
      evs := fired + own + more;
    } else {
      evs := ScanInStep(c, price, i + 1, s);
    }
  }

  lemma {:induction false} StaysTouched(s: Slot, evs: seq<Event>)
    requires s.touched
    ensures AdvanceAll(s, evs).touched
    decreases |evs|
  {
    if evs != [] {
      StaysTouched(Advance(s, evs[0]), evs[1..]);
    }
  }

  /** The slot of the submitted order itself: right, and touched, when its own events are through. */
  lemma OwnStarts(c: Core, r: Request, s: Slot)
    requires WellFormed(c.lob) && Execute(c, r).result.id != 0 && Fresh(s, r.qty, Execute(c, r).result.id)
    requires IdsIssued(c)
    ensures Execute(c, r).core.log == c.log + Events(c, r)
    ensures var t := AdvanceAll(s, Events(c, r)); InStep(t, Execute(c, r).core) && t.touched
  {
    hide WellFormed; hide Left; hide Execute; hide Agrees; hide AdvanceAll; hide Events; hide Counted;
    WellFormedNext(c.lob);
    SubmitIssues(c, r);
    OwnAgrees(c, r, s);
    OwnCounted(c, r, s);
    LogOf(c, r);
    ExecuteKeeps(c, r);
    ExecuteStops(c, r);
    AdvanceSame(s, Events(c, r));
  }

  /** It stays in step through the cascade that its trades set off. */
  lemma OwnInStep(c: Core, r: Request, s: Slot) returns (evs: seq<Event>)
    requires WellFormed(c.lob) && Submit(c, r).result.id != 0 && Fresh(s, r.qty, Submit(c, r).result.id)
    requires IdsIssued(c)
    ensures Submit(c, r).core.log == c.log + evs
    ensures InStep(AdvanceAll(s, evs), Submit(c, r).core) && AdvanceAll(s, evs).touched
  {
    hide InStep; hide Execute; hide AdvanceAll; hide Events; hide WellFormed; hide Fresh;
    OwnStarts(c, r, s);
    evs := Events(c, r);
    var e := Execute(c, r);
    if e.traded && e.core.lastPrice != 0 {
      var t := AdvanceAll(s, evs);
      var more := ScanInStep(e.core, e.core.lastPrice, 0, t);
      AdvanceConcat(s, evs, more);
      StaysTouched(t, more);
      evs := evs + more;
    }
  }

  // ----- what is left of an order and what it traded

  /** What is left of an issued order falls by exactly what it trades; an id that is not issued trades nothing. */
  ghost predicate Conserves(b: Lob, b': Lob, evs: seq<Event>, x: nat) {
    && WellFormed(b') && b.nextId <= b'.nextId
    && (x < b.nextId ==> Left(b', x) + Traded(evs, x) == Left(b, x))
    && (b'.nextId <= x ==> Traded(evs, x) == 0)
  }

  lemma ConservesThen(b: Lob, b1: Lob, b2: Lob, evs: seq<Event>, more: seq<Event>, x: nat)
    requires Conserves(b, b1, evs, x) && Conserves(b1, b2, more, x)
    ensures Conserves(b, b2, evs + more, x)
  {
    hide WellFormed; hide Left; hide Traded;
    TradedConcat(evs, more, x);
  }

  lemma ConservesSame(b: Lob, evs: seq<Event>, x: nat)
    requires WellFormed(b) && forall i | 0 <= i < |evs| :: evs[i].OrderEvent?
    ensures Conserves(b, b, evs, x)
  {
    hide WellFormed; hide Left; hide Traded;
    NoTrades(evs, x);
  }

  /** What an older order loses to a new one is what the two traded. */
  lemma ExecuteConserves(c: Core, r: Request, x: nat)
    requires WellFormed(c.lob) && 0 < x
    ensures Conserves(c.lob, Execute(c, r).core.lob, Events(c, r), x)
  {
    hide WellFormed; hide Left; hide Execute; hide Admissible; hide Trades; hide FilledOf; hide Add; hide FilledQty;
    hide Traded; hide Tail;
    ExecuteLog(c, r);
    ExecuteLeft(c, r, x);
    ExecuteKeeps(c, r);
    SubmitIssues(c, r);
    var a := Entry(c, r);
    if Admissible(c.lob, r) {
      TradesTraded(a.fills, c.tradeSeq, a.id, r.side, x);
      TradedConcat(Trades(a.fills, c.tradeSeq, a.id, r.side), Tail(r, a), x);
      TailTradesNothing(r, a, x);
      if c.lob.nextId <= x {
        UnissuedIsLeft(c.lob, x);
        WellFormedNext(c.lob);
        EntryId(c, r);
      }
    } else {
      NoTrades(Events(c, r), x);
    }
  }

  lemma TailTradesNothing(r: Request, a: Added, x: nat)
    requires FilledQty(a.fills) <= r.qty
    ensures Traded(Tail(r, a), x) == 0
  {
    NoTrades(Tail(r, a), x);
  }

  lemma UnissuedIsLeft(b: Lob, x: nat)
    requires WellFormed(b) && b.nextId <= x
    ensures Left(b, x) == 0
  {
    UnissuedDead(b, x);
    hide WellFormed;
    NoneOf(b.sides.bid, x);
    NoneOf(b.sides.ask, x);
  }

  lemma {:induction false} NoTrades(evs: seq<Event>, x: nat)
    requires forall i | 0 <= i < |evs| :: evs[i].OrderEvent?
    ensures Traded(evs, x) == 0
  {
    if evs != [] {
      NoTrades(evs[1..], x);
    }
  }

  /** Through a submission and everything it sets off, an older order loses exactly what it trades. */
  lemma {:induction false} SubmitConserves(c: Core, r: Request, x: nat) returns (evs: seq<Event>)
    requires WellFormed(c.lob) && 0 < x
    ensures Submit(c, r).core.log == c.log + evs && Conserves(c.lob, Submit(c, r).core.lob, evs, x)
    decreases Active(c.stops), 1, 0
  {
    hide WellFormed; hide Execute; hide Conserves; hide Events;
    ExecuteConserves(c, r, x);
    LogOf(c, r);
    ExecuteKeeps(c, r);
    ExecuteStops(c, r);
    evs := Events(c, r);
    var e := Execute(c, r);
    if e.traded && e.core.lastPrice != 0 {
      var more := ScanConserves(e.core, e.core.lastPrice, 0, x);
      assert Submit(c, r).core == Scan(e.core, e.core.lastPrice, 0);
      ConservesThen(c.lob, e.core.lob, Submit(c, r).core.lob, evs, more, x);
      evs := evs + more;
    }
  }

  lemma {:induction false} ScanConserves(c: Core, price: int, i: nat, x: nat) returns (evs: seq<Event>)
    requires WellFormed(c.lob) && 0 < x && i <= |c.stops|
    ensures Scan(c, price, i).log == c.log + evs && Conserves(c.lob, Scan(c, price, i).lob, evs, x)
    decreases Active(c.stops), 0, |c.stops| - i
  {
    hide WellFormed; hide Conserves; hide Active; hide Reentry;
    if i == |c.stops| {
      evs := [];
      ConservesSame(c.lob, evs, x);
    } else if Triggered(c.stops[i], price) {
      FireCounts(c.stops, i);
      var st, f, r := c.stops[i], Fire(c, i), Reentry(c.stops[i]);
      var fired := [OrderEvent(StopTriggered, st.id, st.side, st.kind, st.trigger, st.qty, st.qty, 0)];
      ConservesSame(c.lob, fired, x);
      var own := SubmitConserves(f, r, x);
      var b1, b2 := Submit(f, r).core.lob, Scan(c, price, i).lob;
      SubmitQuiet(f, r);
      ConservesThen(c.lob, c.lob, b1, fired, own, x);
      var more := ScanConserves(Submit(f, r).core, price, i + 1, x);
      ConservesThen(c.lob, b1, b2, fired + own, more, x);
      evs := fired + own + more;
    } else {
      evs := ScanConserves(c, price, i + 1, x);
    }
  }

  /** How a submission with all it sets off moves the engine on. */
  lemma SubmitMoves(c: Core, r: Request)
    requires WellFormed(c.lob) && IdsIssued(c)
    ensures var e := Submit(c, r);
      && WellFormed(e.core.lob) && IdsIssued(e.core) && c.lob.nextId <= e.core.lob.nextId
      && (e.result.id != 0 ==> e.result.id == c.lob.nextId < e.core.lob.nextId)
  {
    hide WellFormed; hide Execute;
    SubmitQuiet(c, r);
    SubmitIssues(c, r);
    var e := Execute(c, r);
    SubmitNext(c, r);
    if e.traded && e.core.lastPrice != 0 {
      ScanNext(e.core, e.core.lastPrice, 0);
    }
    WellFormedNext(c.lob);
    hide Traded;
    forall x: nat | Submit(c, r).core.lob.nextId <= x
      ensures Traded(Submit(c, r).core.log, x) == 0
    {
      var evs := SubmitConserves(c, r, x);
      TradedConcat(c.log, evs, x);
    }
  }

  // ----- whom a cascade is about

  /** A trade of an order that is new, a report about one, or about none, or the firing of a dormant order. */
  predicate News(e: Event, nextId: nat, stops: seq<StopOrder>) {
    match e
    case Trade(_, aggressor, _, _, _, _) => nextId <= aggressor
    case OrderEvent(etype, id, _, _, _, _, _, _) =>
      id == 0 || nextId <= id || (etype == StopTriggered && exists i :: 0 <= i < |stops| && stops[i].active && stops[i].id == id)
  }

  ghost predicate AllNews(evs: seq<Event>, nextId: nat, stops: seq<StopOrder>) {
    forall i | 0 <= i < |evs| :: News(evs[i], nextId, stops)
  }

  lemma ExecuteNews(c: Core, r: Request)
    requires WellFormed(c.lob)
    ensures AllNews(Events(c, r), c.lob.nextId, c.stops)
  {
    WellFormedNext(c.lob);
    EntryId(c, r);
    hide WellFormed; hide Execute; hide Admissible; hide Trades; hide Add;
    ExecuteLog(c, r);
    var a := Entry(c, r);
    TradesAre(a.fills, c.tradeSeq, a.id, r.side);
    NoFillsNoId(c, r);
  }

  /** An order that trades has an id. */
  lemma NoFillsNoId(c: Core, r: Request)
    ensures Entry(c, r).id == 0 && c.lob.nextId > 0 ==> Entry(c, r).fills == []
  {
    hide Match; hide Enter; hide HasRoom;
  }

  lemma NewsEarlier(evs: seq<Event>, n: nat, stops: seq<StopOrder>, n': nat, stops': seq<StopOrder>)
    requires AllNews(evs, n', stops') && n <= n' && |stops| == |stops'|
    requires forall i | 0 <= i < |stops| && stops'[i].active :: stops[i].active && stops[i].id == stops'[i].id
    ensures AllNews(evs, n, stops)
  {
    forall k | 0 <= k < |evs|
      ensures News(evs[k], n, stops)
    {
      assert News(evs[k], n', stops');
    }
  }

  lemma NewsConcat(a: seq<Event>, b: seq<Event>, n: nat, stops: seq<StopOrder>)
    requires AllNews(a, n, stops) && AllNews(b, n, stops)
    ensures AllNews(a + b, n, stops)
  {
    hide News;
  }

  lemma {:induction false} SubmitNews(c: Core, r: Request) returns (evs: seq<Event>)
    requires WellFormed(c.lob)
    ensures Submit(c, r).core.log == c.log + evs && AllNews(evs, c.lob.nextId, c.stops)
    decreases Active(c.stops), 1, 0
  {
    hide WellFormed; hide Execute; hide AllNews; hide Events;
    ExecuteNews(c, r);
    LogOf(c, r);
    ExecuteKeeps(c, r);
    ExecuteStops(c, r);
    SubmitIssues(c, r);
    evs := Events(c, r);
    var e := Execute(c, r);
    if e.traded && e.core.lastPrice != 0 {
      var more := ScanNews(e.core, e.core.lastPrice, 0);
      NewsEarlier(more, c.lob.nextId, c.stops, e.core.lob.nextId, e.core.stops);
      NewsConcat(evs, more, c.lob.nextId, c.stops);
      evs := evs + more;
    }
  }

  lemma {:induction false} ScanNews(c: Core, price: int, i: nat) returns (evs: seq<Event>)
    requires WellFormed(c.lob) && i <= |c.stops|
    ensures Scan(c, price, i).log == c.log + evs && AllNews(evs, c.lob.nextId, c.stops)
    decreases Active(c.stops), 0, |c.stops| - i
  {
    hide WellFormed; hide Active; hide Reentry; hide News;
    if i == |c.stops| {
      evs := [];
    } else if Triggered(c.stops[i], price) {
      FireCounts(c.stops, i);
      var st, f, r := c.stops[i], Fire(c, i), Reentry(c.stops[i]);
      var fired := [OrderEvent(StopTriggered, st.id, st.side, st.kind, st.trigger, st.qty, st.qty, 0)];
      FiredIsNews(fired[0], c.lob.nextId, c.stops, i);
      var own := SubmitNews(f, r);
      SubmitQuiet(f, r);
      SubmitNext(f, r);
      var c1 := Submit(f, r).core;
      var more := ScanNews(c1, price, i + 1);
      hide AllNews;
      NewsEarlier(own, c.lob.nextId, c.stops, f.lob.nextId, f.stops);
      NewsEarlier(more, c.lob.nextId, c.stops, c1.lob.nextId, c1.stops);
      OneNews(fired, c.lob.nextId, c.stops);
      NewsConcat(fired, own, c.lob.nextId, c.stops);
      NewsConcat(fired + own, more, c.lob.nextId, c.stops);
      evs := fired + own + more;
    } else {
      evs := ScanNews(c, price, i + 1);
    }
  }

  lemma OneNews(evs: seq<Event>, n: nat, stops: seq<StopOrder>)
    requires |evs| == 1 && News(evs[0], n, stops)
    ensures AllNews(evs, n, stops)
  {
  }

  lemma FiredIsNews(e: Event, n: nat, stops: seq<StopOrder>, i: nat)
    requires i < |stops| && stops[i].active && e.OrderEvent? && e.etype == StopTriggered && e.id == stops[i].id
    ensures News(e, n, stops)
  {
  }
}
