/** What a slot says of fills: the traded quantity of its order, counted over everything the engine has emitted. */
module FillLaws {
  import opened Types
  import opened PriceTime
  import opened BookSpec
  import opened BookLaws
  import opened EngineSpec
  import opened PipelineLaws
  import opened Registry
  import opened RegistryLaws

  /** What one event says was traded by order x, on either side. */
  function TradedBy(e: Event, x: nat): nat {
    if e.Trade? then (if e.aggressor == x then e.tradeQty else 0) + (if e.resting == x then e.tradeQty else 0) else 0
  }

  function Traded(log: seq<Event>, x: nat): nat {
    if log == [] then 0 else TradedBy(log[0], x) + Traded(log[1..], x)
  }

  lemma {:induction false} TradedConcat(a: seq<Event>, b: seq<Event>, x: nat)
    ensures Traded(a + b, x) == Traded(a, x) + Traded(b, x)
  {
    if a == [] {
      assert a + b == b;
    } else {
      assert (a + b)[1..] == a[1..] + b;
      TradedConcat(a[1..], b, x);
    }
  }

  lemma TradedOne(e: Event, x: nat)
    ensures Traded([e], x) == TradedBy(e, x)
  {
    assert [e][1..] == [];
  }

  /** The trades of a submission: each fill counts for the submitted order and for the one it rested on. */
  lemma {:induction false} TradesTraded(fills: seq<Fill>, seqNo: nat, id: nat, side: Side, x: nat)
    ensures Traded(Trades(fills, seqNo, id, side), x) == (if x == id then FilledQty(fills) else 0) + FilledOf(fills, x)
  {
    if fills != [] {
      var e, t := Trade(seqNo + 1, id, fills[0].restingId, side, fills[0].price, fills[0].qty),
                  Trades(fills[1..], seqNo + 1, id, side);
      assert ([e] + t)[1..] == t;
      TradesTraded(fills[1..], seqNo + 1, id, side, x);
    }
  }

  predicate Amends(e: Event, x: nat) {
    e.OrderEvent? && e.etype == OrderModified && e.id == x
  }

  ghost predicate Amended(log: seq<Event>, x: nat) {
    exists i | 0 <= i < |log| :: Amends(log[i], x)
  }

  /**
   The slot counts its fills right, and while it is open and its order was never amended, fills and remainder are
   what the order asked for.
   */
  ghost predicate Counted(s: Slot, log: seq<Event>) {
    && s.filled == Traded(log, s.meId)
    && (s.status in {SlotStatus.Open, SlotStatus.Partial} && !Amended(log, s.meId) ==> s.filled + s.remain == s.original)
  }

  lemma AmendedStays(log: seq<Event>, evs: seq<Event>, x: nat)
    requires Amended(log, x)
    ensures Amended(log + evs, x)
  {
    var i :| 0 <= i < |log| && Amends(log[i], x);
    assert (log + evs)[i] == log[i];
  }

  lemma AmendedOne(log: seq<Event>, e: Event, x: nat)
    ensures Amended(log + [e], x) <==> Amended(log, x) || Amends(e, x)
  {
    var t := log + [e];
    if Amended(log, x) {
      AmendedStays(log, [e], x);
    }
    assert t[|log|] == e;
    if Amended(t, x) {
      var i :| 0 <= i < |t| && Amends(t[i], x);
      assert i < |log| ==> log[i] == t[i];
    }
  }

  lemma TradedMore(log: seq<Event>, e: Event, x: nat)
    ensures Traded(log + [e], x) == Traded(log, x) + TradedBy(e, x)
  {
    TradedConcat(log, [e], x);
    TradedOne(e, x);
  }

  /** An event about another order, a cancellation, or an amendment. */
  lemma CountOrder(s: Slot, log: seq<Event>, e: Event)
    requires Counted(s, log) && e.OrderEvent? && (e.id == s.meId ==> e.etype in {OrderCancelled, OrderModified})
    ensures Counted(Advance(s, e), log + [e])
  {
    hide Traded; hide Amended;
    TradedMore(log, e, s.meId);
    AmendedOne(log, e, s.meId);
  }

  /** A report about the order itself that claims no more than was filled. */
  lemma CountReport(s: Slot, log: seq<Event>, e: Event)
    requires Counted(s, log) && e.OrderEvent? && e.id == s.meId && e.etype !in {OrderCancelled, OrderModified}
    requires e.filled <= s.filled
    requires StatusOf(e) in {SlotStatus.Open, SlotStatus.Partial} ==> s.filled + e.remain == s.original
    ensures Counted(Advance(s, e), log + [e])
  {
    hide Traded; hide Amended;
    TradedMore(log, e, s.meId);
    AmendedOne(log, e, s.meId);
  }

  /** A trade the slot has the quantity for. */
  lemma CountTrade(s: Slot, log: seq<Event>, e: Event)
    requires Counted(s, log) && e.Trade? && TradedBy(e, s.meId) <= s.remain
    requires Elsewhere(e, s.meId) || s.status in {SlotStatus.Open, SlotStatus.Partial}
    ensures Counted(Advance(s, e), log + [e])
  {
    hide Traded; hide Amended;
    TradedMore(log, e, s.meId);
    AmendedOne(log, e, s.meId);
  }

  /** A resting order's slot under the trades of another order. */
  lemma {:induction false} CountResting(s: Slot, log: seq<Event>, fills: seq<Fill>, seqNo: nat, id: nat, side: Side, left: nat)
    requires Counted(s, log) && s.meId != id && Agrees(s, left) && FilledOf(fills, s.meId) <= left && AllFill(fills)
    ensures var t := Trades(fills, seqNo, id, side); Counted(AdvanceAll(s, t), log + t)
    decreases |fills|
  {
    hide Counted;
    if fills == [] {
      assert log + [] == log;
    } else {
      var f, t := fills[0], Trades(fills[1..], seqNo + 1, id, side);
      var e := Trade(seqNo + 1, id, f.restingId, side, f.price, f.qty);
      CountTrade(s, log, e);
      CountResting(Advance(s, e), log + [e], fills[1..], seqNo + 1, id, side,
                   left - if f.restingId == s.meId then f.qty else 0);
      assert ([e] + t)[1..] == t && log + [e] + t == log + ([e] + t);
    }
  }

  /** The aggressor's slot under its own trades. */
  lemma {:induction false} CountAggressor(s: Slot, log: seq<Event>, fills: seq<Fill>, seqNo: nat, side: Side)
    requires Counted(s, log) && FilledOf(fills, s.meId) == 0 && FilledQty(fills) <= s.remain && AllFill(fills)
    requires s.status in {SlotStatus.Open, SlotStatus.Partial} || fills == []
    ensures var t := Trades(fills, seqNo, s.meId, side); Counted(AdvanceAll(s, t), log + t)
    decreases |fills|
  {
    hide Counted;
    if fills == [] {
      assert log + [] == log;
    } else {
      var f, t := fills[0], Trades(fills[1..], seqNo + 1, s.meId, side);
      var e := Trade(seqNo + 1, s.meId, f.restingId, side, f.price, f.qty);
      CountTrade(s, log, e);
      if fills[1..] != [] {
        PositiveFills(fills[1..]);
      }
      CountAggressor(Advance(s, e), log + [e], fills[1..], seqNo + 1, side);
      assert ([e] + t)[1..] == t && log + [e] + t == log + ([e] + t);
    }
  }

  /** Order events about others. */
  lemma {:induction false} CountElsewhere(s: Slot, log: seq<Event>, evs: seq<Event>)
    requires Counted(s, log) && forall i | 0 <= i < |evs| :: Elsewhere(evs[i], s.meId)
    ensures Counted(s, log + evs)
    decreases |evs|
  {
    hide Counted;
    if evs == [] {
      assert log + [] == log;
    } else {
      assert Elsewhere(evs[0], s.meId);
      if evs[0].Trade? {
        ElsewhereTrade(s, log, evs[0]);
      } else {
        CountOrder(s, log, evs[0]);
      }
      CountElsewhere(s, log + [evs[0]], evs[1..]);
      assert log + [evs[0]] + evs[1..] == log + evs;
    }
  }

  lemma ElsewhereTrade(s: Slot, log: seq<Event>, e: Event)
    requires Counted(s, log) && e.Trade? && Elsewhere(e, s.meId)
    ensures Counted(s, log + [e])
  {
    CountTrade(s, log, e);
  }

  /** Events that report neither a trade nor a fill of the order. */
  ghost predicate Silent(evs: seq<Event>, x: nat) {
    forall i | 0 <= i < |evs| ::
      evs[i].OrderEvent? && (evs[i].id == x ==> evs[i].etype in {OrderCancelled, OrderModified})
  }

  lemma {:induction false} CountSilent(s: Slot, log: seq<Event>, evs: seq<Event>)
    requires Counted(s, log) && Silent(evs, s.meId)
    ensures Counted(AdvanceAll(s, evs), log + evs)
    decreases |evs|
  {
    hide Counted;
    if evs == [] {
      assert log + [] == log;
    } else {
      var e := evs[0];
      CountOrder(s, log, e);
      AdvanceIds(s, e);
      CountSilent(Advance(s, e), log + [e], evs[1..]);
      assert log + [e] + evs[1..] == log + evs;
    }
  }

  /** An order already on the book when another is submitted. */
  lemma OthersCounted(c: Core, r: Request, s: Slot)
    requires WellFormed(c.lob) && Agrees(s, Left(c.lob, s.meId)) && s.meId != 0 && s.meId != Execute(c, r).result.id
    requires Counted(s, c.log)
    ensures Counted(AdvanceAll(s, Events(c, r)), c.log + Events(c, r))
  {
    hide WellFormed; hide Left; hide Execute; hide Admissible; hide Agrees; hide Trades; hide FilledOf; hide Add;
    hide Counted;
    ExecuteLog(c, r);
    ExecuteLeft(c, r, s.meId);
    if Admissible(c.lob, r) {
      var a := Entry(c, r);
      var ts := Trades(a.fills, c.tradeSeq, a.id, r.side);
      EntryPositive(c, r);
      CountResting(s, c.log, a.fills, c.tradeSeq, a.id, r.side, Left(c.lob, s.meId));
      var t := AdvanceAll(s, ts);
      AdvanceSame(s, ts);
      AdvanceConcat(s, ts, Tail(r, a));
      AdvanceElsewhere(t, Tail(r, a));
      CountElsewhere(t, c.log + ts, Tail(r, a));
      assert c.log + ts + Tail(r, a) == c.log + (ts + Tail(r, a));
    } else {
      AdvanceElsewhere(s, Events(c, r));
      CountElsewhere(s, c.log, Events(c, r));
    }
  }

  /** The closing events of a submission, seen by its own slot. */
  lemma TailCounted(r: Request, a: Added, s: Slot, log: seq<Event>)
    requires FilledQty(a.fills) <= r.qty && s.meId == a.id != 0 && Counted(s, log)
    requires s.filled == FilledQty(a.fills) && s.original == r.qty
    ensures Counted(AdvanceAll(s, Tail(r, a)), log + Tail(r, a))
  {
    hide Counted;
    var t := Tail(r, a);
    var e := t[|t| - 1];
    if Drops(r, a) {
      var s1 := Advance(s, t[0]);
      CountOrder(s, log, t[0]);
      TerminalCounted(s1, log + [t[0]], e);
      assert t == [t[0], e] && t[1..] == [e] && log + [t[0]] + [e] == log + t;
      AdvanceOne(s1, e);
    } else {
      assert t == [e];
      CountReport(s, log, e);
      AdvanceOne(s, e);
    }
  }

  /** A terminal slot takes no report. */
  lemma TerminalCounted(s: Slot, log: seq<Event>, e: Event)
    requires Counted(s, log) && e.OrderEvent? && e.etype != OrderModified && (e.id == s.meId ==> Terminal(s))
    ensures Counted(Advance(s, e), log + [e])
  {
    hide Traded; hide Amended;
    TradedMore(log, e, s.meId);
    AmendedOne(log, e, s.meId);
  }

  /** The submitted order itself, whatever its type and fate. */
  lemma OwnCounted(c: Core, r: Request, s: Slot)
    requires WellFormed(c.lob) && Execute(c, r).result.id != 0 && Fresh(s, r.qty, Execute(c, r).result.id)
    requires Traded(c.log, s.meId) == 0
    ensures Counted(AdvanceAll(s, Events(c, r)), c.log + Events(c, r))
  {
    hide WellFormed; hide Left; hide Execute; hide Trades; hide FilledOf; hide Add; hide Tail; hide FokFillable;
    hide FilledQty; hide Traded; hide Amended;
    ExecuteLog(c, r);
    var a := Entry(c, r);
    assert Counted(s, c.log);
    hide Counted;
    EntryStatus(c, r);
    ExecuteLeft(c, r, s.meId);
    EntryPositive(c, r);
    var ts := Trades(a.fills, c.tradeSeq, a.id, r.side);
    AggressorTrades(s, a.fills, c.tradeSeq, r.side);
    CountAggressor(s, c.log, a.fills, c.tradeSeq, r.side);
    var t := AdvanceAll(s, ts);
    AdvanceConcat(s, ts, Tail(r, a));
    TailCounted(r, a, t, c.log + ts);
    assert c.log + ts + Tail(r, a) == c.log + (ts + Tail(r, a));
  }
}
