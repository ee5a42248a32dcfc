/** The matching engine of engine/matching_engine.c, updated in place and proved against EngineSpec. */
module Engine {
  import opened Types
  import opened PriceTime
  import opened BookSpec
  import opened BookLaws
  import opened EngineSpec
  import EngineAnswers
  import EngineLaws
  import Book
  import BookState
  import Orders
  import Ring

  const EVENT_QUEUE_CAP: nat := 1024

  /** What the event ring holds: order events and trades, and top-of-book updates without their contents. */
  datatype Queued = Note(event: Event) | BookUpdated

  /** The order events and trades among the queued entries. */
  function Notes(q: seq<Queued>): seq<Event> {
    if q == [] then [] else (if q[0].Note? then [q[0].event] else []) + Notes(q[1..])
  }

  lemma {:induction false} NotesConcat(a: seq<Queued>, b: seq<Queued>)
    ensures Notes(a + b) == Notes(a) + Notes(b)
  {
    if a == [] {
      assert a + b == b;
    } else {
      NotesConcat(a[1..], b);
      var first := if a[0].Note? then [a[0].event] else [];
      var x, y := Notes(a[1..]), Notes(b);
      assert (a + b)[0] == a[0] && (a + b)[1..] == a[1..] + b;
      assert Notes(a + b) == first + (x + y);
      assert Notes(a) + y == first + x + y;
    }
  }

  /** As long as nothing was dropped, the ring holds exactly what was emitted and not yet taken off it. */
  ghost predicate Synced(log: seq<Event>, drained: nat, queued: seq<Queued>, dropped: nat) {
    drained <= |log| && (dropped == 0 ==> Notes(queued) == log[drained..])
  }

  lemma SyncedPush(log: seq<Event>, drained: nat, queued: seq<Queued>, e: Event)
    requires Synced(log, drained, queued, 0)
    ensures Synced(log + [e], drained, queued + [Note(e)], 0)
  {
    NotesConcat(queued, [Note(e)]);
    assert Notes([Note(e)]) == [e] + Notes([Note(e)][1..]);
    assert (log + [e])[drained..] == log[drained..] + [e];
  }

  lemma SyncedUpdate(log: seq<Event>, drained: nat, queued: seq<Queued>)
    requires Synced(log, drained, queued, 0)
    ensures Synced(log, drained, queued + [BookUpdated], 0)
  {
    NotesConcat(queued, [BookUpdated]);
    assert Notes([BookUpdated]) == [];
  }

  const NO_STOP: StopOrder := StopOrder(0, Bid, Limit, 0, 0, 0, 0, false)

  class Engine {
    const book: Book.Book
    const events: Ring.Ring<Queued>
    const stops: array<StopOrder>
    var stopCount: nat
    var lastPrice: int
    var tradeSeq: nat
    var tradedQty: nat
    var accepted: nat
    var rejected: nat
    // Every order event and trade ever emitted, whether or not the ring had room for it.
    ghost var log: seq<Event>
    // How many of them have been taken off the ring.
    ghost var drained: nat
    ghost const repr: set<object>

    ghost predicate Valid()
      reads this, repr
      ensures Valid() ==> book in repr && book.repr <= repr && book.Valid()
      ensures Valid() ==> {this, stops, events, events.buf} <= repr && events.Valid() && events.buf.Length == EVENT_QUEUE_CAP
      ensures Valid() ==> Synced(log, drained, events.Contents(), events.dropped)
    {
      && repr == {this, stops, events, events.buf} + book.repr
      && {this, stops, events, events.buf} !! book.repr
      && book.repr <= repr && book in repr
      && stops.Length == MAX_STOPS && events.buf.Length == EVENT_QUEUE_CAP
      && events.Valid()
      && book.Valid() && WellFormed(book.Value())
      && stopCount == Active(stops[..])
      && Synced(log, drained, events.Contents(), events.dropped)
    }

    ghost function Snap(): (c: Core)
      requires Valid()
      reads this, repr
      ensures c.log == log
    {
      Core(book.Value(), stops[..], lastPrice, tradeSeq, accepted, rejected, log)
    }

    /** me_init. */
    constructor ()
      ensures Valid() && fresh(repr) && events.Contents() == [] && events.dropped == 0 && drained == 0
      ensures Snap() == Core(EMPTY, seq(MAX_STOPS, _ => NO_STOP), 0, 0, 0, 0, [])
    {
      hide WellFormed; hide Book.Book.Valid; hide Book.Book.Wired; hide Book.Book.Value;
      var b := new Book.Book();
      var e := new Ring.Ring<Queued>(EVENT_QUEUE_CAP, BookUpdated);
      var s := new StopOrder[MAX_STOPS](_ => NO_STOP);
      book, events, stops := b, e, s;
      stopCount, lastPrice, tradeSeq, tradedQty, accepted, rejected := 0, 0, 0, 0, 0, 0;
      log, drained := [], 0;
      repr := {this, s, e, e.buf} + b.repr;
      new;
      hide Active;
      ReachableWellFormed([]);
      assert Run(EMPTY, []) == EMPTY;
      NoneActive(stops[..]);
    }

    /** emit_order_event: a full ring refuses the event and counts it as dropped; the log takes it in any case. */
    method Emit(e: Event)
      requires Valid()
      modifies this`log, events, events.buf
      ensures drained == old(drained) && events.dropped >= old(events.dropped)
      ensures Valid() && Snap() == old(Snap()).(log := old(log) + [e])
      ensures |old(events.Contents())| == EVENT_QUEUE_CAP - 1 ==>
        events.Contents() == old(events.Contents()) && events.dropped == old(events.dropped) + 1
      ensures |old(events.Contents())| != EVENT_QUEUE_CAP - 1 ==>
        events.Contents() == old(events.Contents()) + [Note(e)] && events.dropped == old(events.dropped)
    {
      hide WellFormed; hide Active; hide Book.Book.Valid; hide Book.Book.Wired; hide Book.Book.Value;
      hide Ring.Window;
      if events.dropped == 0 {
        SyncedPush(log, drained, events.Contents(), e);
      }
      var ok := events.Push(Note(e));
      log := log + [e];
    }

    /** maybe_emit_tob: an update is emitted or not, depending on quantities that are not part of the model. */
    method MaybeEmitTob()
      requires Valid()
      modifies events, events.buf
      ensures drained == old(drained) && events.dropped >= old(events.dropped)
      ensures Valid() && Snap() == old(Snap())
    {
      hide WellFormed; hide Active; hide Book.Book.Valid; hide Book.Book.Wired; hide Book.Book.Value;
      hide Ring.Window;
      if * {
        if events.dropped == 0 {
          SyncedUpdate(log, drained, events.Contents());
        }
        var ok := events.Push(BookUpdated);
      }
    }

    /** emit_trade. */
    method EmitTrade(id: nat, side: Side, f: Fill)
      requires Valid()
      modifies this`log, this`tradeSeq, this`tradedQty, this`lastPrice, events, events.buf
      ensures drained == old(drained) && events.dropped >= old(events.dropped)
      ensures Valid()
      ensures Snap() == old(Snap()).(tradeSeq := old(tradeSeq) + 1, lastPrice := f.price,
                         log := old(log) + [Trade(old(tradeSeq) + 1, id, f.restingId, side, f.price, f.qty)])
      ensures tradedQty == old(tradedQty) + f.qty
    {
      hide WellFormed; hide Active; hide Synced; hide Ring.Window; hide Book.Book.Valid; hide Book.Book.Wired;
      hide Book.Book.Value;
      tradeSeq := tradeSeq + 1;
      Emit(Trade(tradeSeq, id, f.restingId, side, f.price, f.qty));
      tradedQty := tradedQty + f.qty;
      lastPrice := f.price;
    }

    /** Step 3 of me_submit_order: one trade per fill, and the totals. */
    method EmitTrades(id: nat, side: Side, fills: seq<Fill>) returns (filled: nat, notional: int)
      requires Valid()
      modifies this`log, this`tradeSeq, this`tradedQty, this`lastPrice, events, events.buf
      ensures drained == old(drained) && events.dropped >= old(events.dropped)
      ensures Valid() && filled == FilledQty(fills) && notional == Notional(fills)
      ensures Snap() == old(Snap()).(tradeSeq := old(tradeSeq) + |fills|,
                         lastPrice := if fills == [] then old(lastPrice) else fills[|fills| - 1].price,
                         log := old(log) + Trades(fills, old(tradeSeq), id, side))
      ensures tradedQty == old(tradedQty) + FilledQty(fills)
    {
      hide WellFormed; hide Active; hide Synced; hide Ring.Window; hide Book.Book.Valid; hide Book.Book.Wired;
      hide Book.Book.Value; hide Valid;
      filled, notional := 0, 0;
      var i := 0;
      while i < |fills|
        invariant 0 <= i <= |fills| && Valid()
        invariant drained == old(drained) && events.dropped >= old(events.dropped)
        invariant filled + FilledQty(fills[i..]) == FilledQty(fills)
        invariant notional + Notional(fills[i..]) == Notional(fills)
        invariant tradedQty == old(tradedQty) + filled
        invariant log + Trades(fills[i..], tradeSeq, id, side) == old(log) + Trades(fills, old(tradeSeq), id, side)
        invariant Snap() == old(Snap()).(tradeSeq := old(tradeSeq) + i, log := log,
                              lastPrice := if i == 0 then old(lastPrice) else fills[i - 1].price)
      {
        assert fills[i..][1..] == fills[i + 1..];
        filled := filled + fills[i].qty;
        notional := notional + fills[i].price * fills[i].qty;
        EmitTrade(id, side, fills[i]);
        i := i + 1;
      }
    }

    /** orders_preprocess. */
    method Preprocess(kind: OrderType, side: Side, price: int, qty: nat) returns (ok: bool, effective: int)
      requires Valid()
      ensures ok == Admissible(book.Value(), Request(kind, side, price, qty))
      ensures ok ==> effective == EffectivePrice(Request(kind, side, price, qty))
    {
      hide WellFormed; hide Active; hide Synced; hide Ring.Window; hide Book.Book.Valid; hide Book.Book.Wired;
      hide Book.Book.Value; hide FokFillable;
      effective := price;
      if qty == 0 {
        return false, 0;
      }
      match kind {
        case Limit => ok := price > 0;
        case Ioc => ok := price > 0;
        case Market =>
          ok := price == 0;
          effective := if side == Bid then MARKET_BID_PRICE else MARKET_ASK_PRICE;
        case Fok =>
          ok := price > 0;
          if ok {
            ok := Orders.FokCheck(book, side, price, qty);
          }
        case Stop => ok := false;
        case StopLimit => ok := false;
      }
    }

    /** ob_add_order, seen from the engine. */
    method AddToBook(side: Side, price: int, qty: nat) returns (status: Status, id: nat, fills: seq<Fill>)
      requires Valid()
      modifies book.repr
      ensures drained == old(drained) && events.dropped >= old(events.dropped)
      ensures Valid()
      ensures var a := Add(old(book.Value()), side, price, qty, 0);
        && Snap() == old(Snap()).(lob := a.lob) && status == a.status && id == a.id && fills == a.fills
    {
      hide WellFormed; hide Active; hide Synced; hide Ring.Window; hide Book.Book.Valid; hide Book.Book.Wired;
      hide Book.Book.Value; hide Add;
      AddKeeps(book.Value(), side, price, qty, 0);
      status, id, fills := book.AddOrder(side, price, qty, 0);
    }

    /** ob_cancel_order, seen from the engine. */
    method CancelInBook(id: nat) returns (status: Status)
      requires Valid()
      modifies book.repr
      ensures drained == old(drained) && events.dropped >= old(events.dropped)
      ensures Valid()
      ensures Snap() == old(Snap()).(lob := Cancel(old(book.Value()), id).0)
      ensures status == Cancel(old(book.Value()), id).1
    {
      hide WellFormed; hide Active; hide Synced; hide Ring.Window; hide Book.Book.Valid; hide Book.Book.Wired;
      hide Book.Book.Value; hide Cancel;
      CancelKeeps(book.Value(), id);
      status := book.CancelOrder(id);
    }

    /** The last events and counters of me_submit_order. */
    method Conclude(r: Request, status: Status, id: nat, filled: nat, remain: nat) returns (outcome: Status)
      requires Valid()
      modifies this`log, this`accepted, this`rejected, events, events.buf
      ensures drained == old(drained) && events.dropped >= old(events.dropped)
      ensures Valid()
      ensures Snap() == Concluded(old(Snap()), r, status, id, filled, remain)
      ensures outcome == Outcome(status, filled, remain)
    {
      hide WellFormed; hide Active; hide Synced; hide Ring.Window; hide Book.Book.Valid; hide Book.Book.Wired;
      hide Book.Book.Value;
      outcome := Accepted;
      if status == Rejected {
        rejected := rejected + 1;
        Emit(OrderEvent(OrderRejected, id, r.side, r.kind, r.price, r.qty, r.qty, 0));
      } else {
        accepted := accepted + 1;
        if remain == 0 {
          outcome := Filled;
          Emit(OrderEvent(OrderFilled, id, r.side, r.kind, r.price, r.qty, 0, filled));
        } else if filled > 0 {
          outcome := Partial;
          Emit(OrderEvent(OrderPartial, id, r.side, r.kind, r.price, r.qty, remain, filled));
        } else {
          Emit(OrderEvent(OrderAccepted, id, r.side, r.kind, r.price, r.qty, r.qty, 0));
        }
      }
      MaybeEmitTob();
    }

    /** Steps 1 to 5 of me_submit_order. */
    method ExecuteOrder(kind: OrderType, side: Side, price: int, qty: nat) returns (out: Result, traded: bool)
      requires Valid()
      modifies repr
      ensures drained == old(drained) && events.dropped >= old(events.dropped)
      ensures Valid()
      ensures Executed(Snap(), out, traded) == Execute(old(Snap()), Request(kind, side, price, qty))
    {
      hide WellFormed; hide Active; hide Synced; hide Ring.Window; hide Book.Book.Valid; hide Book.Book.Wired;
      hide Book.Book.Value; hide Add; hide Cancel; hide Trades; hide Ring.Ring.Contents; hide Ring.Ring.Valid;
      hide Admissible; hide Concluded;
      ghost var c := Snap();
      var r := Request(kind, side, price, qty);
      var ok, effective := Preprocess(kind, side, price, qty);
      if !ok {
        Refuse(0, side, kind, price, qty);
        MaybeEmitTob();
        return Result(0, Rejected, 0, 0, 0, 0), false;
      }
      var status, id, fills := AddToBook(side, effective, qty);
      var filled, notional := EmitTrades(id, side, fills);
      AddFills(c.lob, side, effective, qty, 0);
      var remain := qty - filled;
      var avg := if filled > 0 then (notional + filled / 2) / filled else 0;
      if kind == Ioc && remain > 0 && id != 0 {
        var st := CancelInBook(id);
        remain := 0;
        Emit(OrderEvent(OrderCancelled, id, side, kind, price, qty, 0, filled));
      }
      assert log + [] == log;
      var outcome := Conclude(r, status, id, filled, remain);
      out, traded := Result(id, outcome, |fills|, filled, remain, avg), |fills| > 0;
    }

    /** me_submit_order. */
    method SubmitOrder(kind: OrderType, side: Side, price: int, qty: nat) returns (out: Result)
      requires Valid()
      modifies repr
      ensures drained == old(drained) && events.dropped >= old(events.dropped)
      ensures Valid()
      ensures var e := Submit(old(Snap()), Request(kind, side, price, qty)); Snap() == e.core && out == e.result
      decreases Active(stops[..]), 1, 0
    {
      hide Valid; hide Execute; hide Scan; hide Active;
      ghost var c, r := Snap(), Request(kind, side, price, qty);
      var traded;
      out, traded := ExecuteOrder(kind, side, price, qty);
      EngineLaws.ExecuteStops(c, r);
      if traded {
        FireStops();
      }
    }

    /** Takes slot i out of the dormant orders and announces it. */
    method Deactivate(i: nat)
      requires Valid() && i < stops.Length && stops[i].active
      modifies this`stopCount, this`log, stops, events, events.buf
      ensures drained == old(drained) && events.dropped >= old(events.dropped)
      ensures Valid() && Snap() == Fire(old(Snap()), i)
      ensures Active(stops[..]) == old(Active(stops[..])) - 1
    {
      hide WellFormed; hide Active; hide Synced; hide Ring.Window; hide Book.Book.Valid; hide Book.Book.Wired;
      hide Book.Book.Value;
      var s := stops[i];
      FireCounts(stops[..], i);
      stops[i] := s.(active := false);
      stopCount := stopCount - 1;
      Emit(OrderEvent(StopTriggered, s.id, s.side, s.kind, s.trigger, s.qty, s.qty, 0));
    }

    /** check_stops. */
    method FireStops()
      requires Valid()
      modifies repr
      ensures drained == old(drained) && events.dropped >= old(events.dropped)
      ensures Valid() && Snap() == CheckStops(old(Snap()))
      decreases Active(stops[..]), 0, stops.Length + 1
    {
      hide WellFormed; hide Active; hide Synced; hide Ring.Window; hide Book.Book.Valid; hide Book.Book.Wired;
      hide Book.Book.Value; hide Submit; hide Fire;
      var ltp := lastPrice;
      if ltp == 0 {
        return;
      }
      var i := 0;
      while i < stops.Length
        invariant 0 <= i <= stops.Length && Valid()
        invariant Active(stops[..]) <= old(Active(stops[..]))
        invariant Scan(Snap(), ltp, i) == Scan(old(Snap()), ltp, 0)
        invariant drained == old(drained) && events.dropped >= old(events.dropped)
      {
        if Triggered(stops[i], ltp) {
          var s := stops[i];
          ghost var c := Snap();
          Deactivate(i);
          assert Snap() == Fire(c, i) && Active(Snap().stops) < old(Active(stops[..]));
          var out;
          if s.kind == Stop {
            out := SubmitOrder(Market, s.side, 0, s.qty);
          } else {
            out := SubmitOrder(Limit, s.side, s.limit, s.qty);
          }
          assert Snap() == Submit(Fire(c, i), Reentry(s)).core;
        }
        i := i + 1;
      }
    }

    // ----- stops

    /** stop_pool_find_free. */
    method FindFreeSlot() returns (i: nat)
      requires Valid()
      ensures i == FirstFree(stops[..])
    {
      hide WellFormed; hide Active; hide Synced; hide Ring.Window; hide Book.Book.Valid; hide Book.Book.Wired;
      hide Book.Book.Value; hide FirstFree;
      i := 0;
      while i < stops.Length && stops[i].active
        invariant 0 <= i <= stops.Length
        invariant forall j | 0 <= j < i :: stops[j].active
      {
        i := i + 1;
      }
      FirstFreeIs(stops[..], i);
    }

    method Refuse(id: nat, side: Side, kind: OrderType, price: int, qty: nat)
      requires Valid()
      modifies this`log, this`rejected, events, events.buf
      ensures drained == old(drained) && events.dropped >= old(events.dropped)
      ensures Valid()
      ensures Snap() == old(Snap()).(rejected := old(rejected) + 1,
                         log := old(log) + [OrderEvent(OrderRejected, id, side, kind, price, qty, qty, 0)])
    {
      hide WellFormed; hide Active; hide Synced; hide Ring.Window; hide Book.Book.Valid; hide Book.Book.Wired;
      hide Book.Book.Value;
      rejected := rejected + 1;
      Emit(OrderEvent(OrderRejected, id, side, kind, price, qty, qty, 0));
    }

    /** me_submit_stop, with the expiry time already computed from the clock. */
    method SubmitStop(kind: OrderType, side: Side, trigger: int, limit: int, qty: nat, expiry: nat)
      returns (out: Result)
      requires Valid()
      modifies repr
      ensures drained == old(drained) && events.dropped >= old(events.dropped)
      ensures Valid()
      ensures (Snap(), out) == EngineSpec.SubmitStop(old(Snap()), kind, side, trigger, limit, qty, expiry)
    {
      hide WellFormed; hide Active; hide Synced; hide Ring.Window; hide Book.Book.Valid; hide Book.Book.Wired;
      hide Book.Book.Value; hide FirstFree; hide Ring.Ring.Contents; hide Ring.Ring.Valid;
      var refused := Result(0, Rejected, 0, 0, 0, 0);
      if qty == 0 || trigger <= 0 || (kind == Stop && limit != 0) || (kind == StopLimit && limit <= 0) {
        Refuse(0, side, kind, trigger, qty);
        return refused;
      }
      var slot := FindFreeSlot();
      if slot == stops.Length {
        Refuse(0, side, kind, trigger, qty);
        return refused;
      }
      var id := NextId();
      Occupy(slot, StopOrder(id, side, kind, trigger, limit, qty, expiry, true));
      accepted := accepted + 1;
      Emit(OrderEvent(OrderAccepted, id, side, kind, trigger, qty, qty, 0));
      out := Result(id, Accepted, 0, 0, 0, 0);
    }

    method NextId() returns (id: nat)
      requires Valid()
      modifies book.repr
      ensures drained == old(drained) && events.dropped >= old(events.dropped)
      ensures Valid() && id == old(book.Value().nextId)
      ensures Snap() == old(Snap()).(lob := old(book.Value()).(nextId := id + 1))
    {
      hide WellFormed; hide Active; hide Synced; hide Ring.Window; hide Book.Book.Valid; hide Book.Book.Wired;
      hide Book.Book.Value;
      LaterWellFormed(book.Value());
      id := book.TakeId();
    }

    method Occupy(slot: nat, s: StopOrder)
      requires Valid() && slot < stops.Length && !stops[slot].active && s.active
      modifies this`stopCount, stops
      ensures Valid() && Snap() == old(Snap()).(stops := old(stops[..])[slot := s])
    {
      hide WellFormed; hide Active; hide Synced; hide Ring.Window; hide Book.Book.Valid; hide Book.Book.Wired;
      hide Book.Book.Value;
      OccupyCounts(stops[..], slot, s);
      stops[slot] := s;
      stopCount := stopCount + 1;
    }

    /** Takes slot i out of the dormant orders without firing it. */
    method Vacate(i: nat)
      requires Valid() && i < stops.Length && stops[i].active
      modifies this`stopCount, this`log, stops, events, events.buf
      ensures drained == old(drained) && events.dropped >= old(events.dropped)
      ensures Valid() && Active(stops[..]) == old(Active(stops[..])) - 1
      ensures var s := old(stops[i]);
        Snap() == old(Snap()).(stops := old(stops[..])[i := s.(active := false)],
                      log := old(log) + [OrderEvent(OrderCancelled, s.id, s.side, s.kind, s.trigger, s.qty, 0, 0)])
    {
      hide WellFormed; hide Active; hide Synced; hide Ring.Window; hide Book.Book.Valid; hide Book.Book.Wired;
      hide Book.Book.Value;
      var s := stops[i];
      FireCounts(stops[..], i);
      stops[i] := s.(active := false);
      stopCount := stopCount - 1;
      Emit(OrderEvent(OrderCancelled, s.id, s.side, s.kind, s.trigger, s.qty, 0, 0));
    }

    /** me_cancel_stop. */
    method CancelStop(id: nat) returns (found: bool)
      requires Valid()
      modifies this`stopCount, this`log, stops, events, events.buf
      ensures drained == old(drained) && events.dropped >= old(events.dropped)
      ensures Valid() && (Snap(), found) == EngineSpec.CancelStop(old(Snap()), id)
    {
      hide WellFormed; hide Active; hide Synced; hide Ring.Window; hide Book.Book.Valid; hide Book.Book.Wired;
      hide Book.Book.Value; hide FindStop;
      var i := 0;
      while i < stops.Length && !(stops[i].active && stops[i].id == id)
        invariant 0 <= i <= stops.Length
        invariant forall j | 0 <= j < i :: !(stops[j].active && stops[j].id == id)
      {
        i := i + 1;
      }
      FindStopIs(stops[..], id, i);
      found := i < stops.Length;
      if found {
        Vacate(i);
      }
    }

    // ----- resting orders

    /** me_cancel_order. */
    method CancelOrder(id: nat) returns (ok: bool)
      requires Valid()
      modifies repr
      ensures drained == old(drained) && events.dropped >= old(events.dropped)
      ensures Valid() && (Snap(), ok) == EngineSpec.CancelOrder(old(Snap()), id)
    {
      hide WellFormed; hide Active; hide Synced; hide Ring.Window; hide Book.Book.Valid; hide Book.Book.Wired;
      hide Book.Book.Value; hide Cancel; hide Live; hide Find;
      hide SideHolding; hide HasId;
      var found, o := book.GetOrder(id);
      if !found {
        return false;
      }
      CancelledIs(book.Value(), id);
      var st := CancelInBook(id);
      Emit(OrderEvent(OrderCancelled, id, o.side, Limit, o.price, o.qty, 0, o.qtyRemain));
      MaybeEmitTob();
      ok := true;
    }

    /** ob_modify_order, seen from the engine. */
    method ModifyInBook(id: nat, price: int, qty: nat) returns (status: Status)
      requires Valid()
      modifies book.repr
      ensures drained == old(drained) && events.dropped >= old(events.dropped)
      ensures Valid()
      ensures Snap() == old(Snap()).(lob := Modify(old(book.Value()), id, price, qty).0)
      ensures status == Modify(old(book.Value()), id, price, qty).1
    {
      hide WellFormed; hide Active; hide Synced; hide Ring.Window; hide Book.Book.Valid; hide Book.Book.Wired;
      hide Book.Book.Value; hide Modify;
      ModifyKeeps(book.Value(), id, price, qty);
      status := book.ModifyOrder(id, price, qty);
    }

    /** me_modify_order. */
    method ModifyOrder(id: nat, price: int, qty: nat) returns (ok: bool)
      requires Valid()
      modifies repr
      ensures drained == old(drained) && events.dropped >= old(events.dropped)
      ensures Valid() && (Snap(), ok) == EngineSpec.ModifyOrder(old(Snap()), id, price, qty)
    {
      hide WellFormed; hide Active; hide Synced; hide Ring.Window; hide Book.Book.Valid; hide Book.Book.Wired;
      hide Book.Book.Value; hide Modify; hide Live; hide Find;
      hide SideHolding; hide HasId;
      var found, o := book.GetOrder(id);
      if !found {
        return false;
      }
      var st := ModifyInBook(id, price, qty);
      if st != Accepted {
        return false;
      }
      Emit(OrderEvent(OrderModified, id, o.side, Limit, price, o.qty, qty, 0));
      MaybeEmitTob();
      ok := true;
    }

    /** me_poll_event. */
    method PollEvent() returns (ok: bool, q: Queued)
      requires Valid()
      modifies this`drained, events
      ensures Valid() && Snap() == old(Snap()) && events.dropped == old(events.dropped)
      ensures ok == (old(events.Contents()) != [])
      ensures ok ==> q == old(events.Contents())[0] && events.Contents() == old(events.Contents())[1..]
      ensures !ok ==> events.Contents() == [] && drained == old(drained)
      ensures !ok && events.dropped == 0 ==> log[drained..] == []
      ensures ok && events.dropped == 0 ==>
        log[old(drained)..] == (if q.Note? then [q.event] else []) + log[drained..]
    {
      hide WellFormed; hide Active; hide Book.Book.Valid; hide Book.Book.Wired; hide Book.Book.Value;
      hide Ring.Window;
      ghost var c := events.Contents();
      ok, q := events.Pop();
      if ok && q.Note? && events.dropped == 0 {
        assert |log[drained..]| > 0;
        assert log[drained..] == [log[drained]] + log[drained + 1..];
        drained := drained + 1;
      }
    }

    // ----- expiry

    /** The first sweep of me_expire_orders. */
    method SweepStops(now: nat) returns (n: nat)
      requires Valid()
      modifies this`stopCount, this`log, stops, events, events.buf
      ensures drained == old(drained) && events.dropped >= old(events.dropped)
      ensures Valid() && n == old(Active(stops[..])) - Active(stops[..])
      ensures forall i | 0 <= i < stops.Length :: stops[i] == ExpireStop(old(stops[i]), now)
      ensures Snap() == old(Snap()).(stops := stops[..], log := old(log) + StopExpiries(old(stops[..]), now))
    {
      hide Valid; hide Active; hide Expired; hide Book.Book.Valid; hide Book.Book.Wired; hide Book.Book.Value;
      hide ExpireStop;
      ghost var was, c := stops[..], Snap();
      n := 0;
      var i := 0;
      while i < stops.Length
        invariant 0 <= i <= stops.Length && Valid()
        invariant n == Active(was) - Active(stops[..])
        invariant drained == old(drained) && events.dropped >= old(events.dropped)
        invariant forall j | 0 <= j < i :: stops[j] == ExpireStop(was[j], now)
        invariant stops[i..] == was[i..]
        invariant log + StopExpiries(was[i..], now) == c.log + StopExpiries(was, now)
        invariant Snap() == c.(stops := stops[..], log := log)
      {
        assert was[i..][1..] == was[i + 1..] && stops[i..][0] == was[i..][0];
        StopExpiry(was[i], now);
        if stops[i].active && Expired(stops[i].expiry, now) {
          Vacate(i);
          n := n + 1;
        }
        i := i + 1;
      }
    }

    /** Cancels the expired order in slot i and announces it. */
    method ExpireSlot(i: nat, now: nat, ghost b: Lob, ghost evs: seq<Event>, ghost gone: set<nat>)
      returns (ghost evs': seq<Event>, ghost gone': set<nat>)
      requires Valid() && i < MAX_ORDERS == book.orders.Length
      requires book.orders[i].id != 0 && Expired(book.orders[i].expiry, now)
      requires WellFormed(b) && EngineLaws.Swept(b, book.Value(), evs, gone, now)
      modifies book.repr, this`log, events, events.buf
      ensures drained == old(drained) && events.dropped >= old(events.dropped)
      ensures Valid() && |evs'| == |evs| + 1 && evs'[..|evs|] == evs
      ensures Snap() == old(Snap()).(lob := book.Value(), log := old(log) + evs'[|evs|..])
      ensures EngineLaws.Swept(b, book.Value(), evs', gone', now)
      ensures book.orders[i].id == 0
      ensures forall y | 0 <= y < MAX_ORDERS :: BookState.Outlives(old(book.orders[y]), book.orders[y])
    {
      hide WellFormed; hide Active; hide Synced; hide Ring.Window; hide Book.Book.Valid; hide Book.Book.Wired;
      hide Book.Book.Value; hide Cancel;
      hide EngineLaws.Swept;
      var o := book.orders[i];
      ghost var c := book.Value();
      book.SlotIsResting(i);
      EngineLaws.SweptMore(b, c, evs, gone, o.side, BookState.RestOf(o), now);
      CancelKeeps(c, o.id);
      evs', gone' := evs + [OrderExpiry(o.side, BookState.RestOf(o))], gone + {o.id};
      var st := book.CancelOrder(o.id);
      Emit(OrderEvent(OrderCancelled, o.id, o.side, Limit, o.price, o.qty, 0, 0));
    }

    /** The second sweep of me_expire_orders, over the slots of the order pool. */
    method SweepOrders(now: nat) returns (n: nat, ghost evs: seq<Event>)
      requires Valid()
      modifies book.repr, this`log, events, events.buf
      ensures drained == old(drained) && events.dropped >= old(events.dropped)
      ensures Valid() && n == |evs| == old(Count(book.Value())) - Count(book.Value())
      ensures EngineLaws.Announces(old(book.Value()), evs, now)
      ensures Snap() == old(Snap()).(log := old(log) + evs, lob := Lob(Sided(Survivors(old(book.Value()).sides.bid, now),
                                       Survivors(old(book.Value()).sides.ask, now)), old(book.Value()).nextId))
    {
      hide Valid; hide WellFormed; hide Book.Book.Value; hide Book.Book.Valid; hide Book.Book.Wired;
      hide EngineLaws.Swept; hide EngineLaws.Announces; hide Active;
      ghost var b, gone := book.Value(), {};
      SnapWellFormed();
      EngineLaws.SweptStart(b, now);
      n, evs := 0, [];
      var i := 0;
      while i < MAX_ORDERS
        invariant 0 <= i <= MAX_ORDERS && Valid() && n == |evs|
        invariant drained == old(drained) && events.dropped >= old(events.dropped)
        invariant EngineLaws.Swept(b, book.Value(), evs, gone, now)
        invariant MAX_ORDERS == book.orders.Length
        invariant forall y | 0 <= y < i :: book.orders[y].id == 0 || !Expired(book.orders[y].expiry, now)
        invariant Snap() == old(Snap()).(lob := book.Value(), log := old(log) + evs)
      {
        if book.orders[i].id != 0 && Expired(book.orders[i].expiry, now) {
          ghost var evs0 := evs;
          evs, gone := ExpireSlot(i, now, b, evs, gone);
          assert evs == evs0 + evs[|evs0|..];
          n := n + 1;
        }
        i := i + 1;
      }
      SlotsClear(now);
      EngineLaws.SweptEnd(b, book.Value(), evs, gone, now);
    }

    lemma SnapWellFormed()
      requires Valid()
      ensures WellFormed(book.Value()) && book.orders.Length == MAX_ORDERS && book.Valid()
    {
    }

    lemma SlotsClear(now: nat)
      requires Valid() && book.orders.Length == MAX_ORDERS
      requires forall y | 0 <= y < MAX_ORDERS :: book.orders[y].id == 0 || !Expired(book.orders[y].expiry, now)
      ensures EngineLaws.NoneExpired(book.Value(), now)
    {
      hide WellFormed; hide Book.Book.Value; hide Book.Book.Valid; hide Book.Book.Wired; hide Active;
      forall side: Side, i: nat | i < |book.Value().sides.Get(side)|
        ensures !Expired(book.Value().sides.Get(side)[i].expiry, now)
      {
        var x := book.RestingHasSlot(side, i);
      }
    }

    /** me_expire_orders: what has expired goes, dormant or resting, and nothing else moves. */
    method ExpireOrders(now: nat) returns (n: nat, ghost evs: seq<Event>)
      requires Valid()
      modifies repr
      ensures drained == old(drained) && events.dropped >= old(events.dropped)
      ensures Valid() && EngineLaws.Announces(old(book.Value()), evs, now)
      ensures n == old(Active(stops[..])) - Active(stops[..]) + |evs|
      ensures |evs| == old(Count(book.Value())) - Count(book.Value())
      ensures forall i | 0 <= i < stops.Length :: stops[i] == ExpireStop(old(stops[i]), now)
      ensures Snap() == Expire(old(Snap()), now, evs)
      ensures forall i | 0 <= i < stops.Length ::
        stops[i].active == (old(stops[i].active) && (old(stops[i].expiry) == 0 || now < old(stops[i].expiry)))
      ensures forall side: Side, r: Rest ::
        r in book.Value().sides.Get(side) <==> r in old(book.Value().sides.Get(side)) && (r.expiry == 0 || now < r.expiry)
    {
      hide WellFormed; hide Book.Book.Value; hide Book.Book.Valid; hide Book.Book.Wired; hide Active;
      hide EngineLaws.Announces; hide StopExpiries; hide Survivors; hide ExpireStop;
      ghost var c := Snap();
      n := SweepStops(now);
      ghost var stops' := stops[..];
      var m;
      m, evs := SweepOrders(now);
      assert stops[..] == stops';
      n := n + m;
      if n > 0 {
        MaybeEmitTob();
      }
      EngineAnswers.ExpireAnswers(c, now, evs);
    }
  }

  lemma StopExpiry(s: StopOrder, now: nat)
    ensures ExpireStop(s, now) == if s.active && Expired(s.expiry, now) then s.(active := false) else s
  {
  }

  lemma {:induction false} NoneActive(s: seq<StopOrder>)
    requires forall i | 0 <= i < |s| :: !s[i].active
    ensures Active(s) == 0
  {
    if s != [] {
      NoneActive(s[1..]);
    }
  }

  lemma {:induction false} FirstFreeIs(s: seq<StopOrder>, i: nat)
    requires i <= |s| && (i < |s| ==> !s[i].active) && forall j | 0 <= j < i :: s[j].active
    ensures FirstFree(s) == i
  {
  }

  lemma {:induction false} FindStopIs(s: seq<StopOrder>, id: nat, i: nat)
    requires i <= |s| && (i < |s| ==> s[i].active && s[i].id == id)
    requires forall j | 0 <= j < i :: !(s[j].active && s[j].id == id)
    ensures FindStop(s, id) == i
  {
  }

  lemma {:induction false} OccupyCounts(s: seq<StopOrder>, i: nat, v: StopOrder)
    requires i < |s| && !s[i].active && v.active
    ensures Active(s[i := v]) == Active(s) + 1
  {
    if i == 0 {
      assert s[i := v][1..] == s[1..];
    } else {
      OccupyCounts(s[1..], i - 1, v);
      assert s[i := v][1..] == s[1..][i - 1 := v];
    }
  }

  lemma LaterWellFormed(b: Lob)
    requires WellFormed(b)
    ensures WellFormed(b.(nextId := b.nextId + 1))
  {
  }

  lemma CancelledIs(b: Lob, id: nat)
    requires Live(b, id)
    ensures Cancel(b, id).1 == Accepted
  {
  }
}
