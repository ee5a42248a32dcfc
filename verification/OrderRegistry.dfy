/** The order registry of bridge/bridge.c, updated in place and proved against Registry. */
module OrderRegistry {
  import opened EngineSpec
  import opened Registry
  import opened BridgeSpec
  import opened EventStream
  import G = GatewaySpec
  import Ring

  class OrderRegistry {
    const idBase: nat
    const orders: array<Slot>
    const meToGw: array<nat>
    const stream: Stream
    ghost const repr: set<object>

    ghost predicate Valid()
      reads this, repr
      ensures Valid() ==> repr == {this, orders, meToGw, stream, stream.ring, stream.ring.buf}
    {
      && repr == {this, orders, meToGw, stream, stream.ring, stream.ring.buf}
      && orders.Length == meToGw.Length == REGISTRY_CAP && stream.Valid()
    }

    ghost function Value(): (r: Reg)
      requires Valid()
      reads this, repr
      ensures r.base == idBase && |r.orders| == |r.meToGw| == REGISTRY_CAP
    {
      Reg(idBase, orders[..], meToGw[..], stream.published)
    }

    /** An empty registry whose ids start behind base. */
    constructor (base: nat)
      ensures Valid() && fresh(repr)
      ensures Value() == Reg(base, seq(REGISTRY_CAP, _ => NO_SLOT), seq(REGISTRY_CAP, _ => 0), [])
    {
      hide Newest; hide Ring.Window;
      var o := new Slot[REGISTRY_CAP](_ => NO_SLOT);
      var m := new nat[REGISTRY_CAP](_ => 0);
      var s := new Stream();
      idBase, orders, meToGw, stream := base, o, m, s;
      repr := {this, o, m, s, s.ring, s.ring.buf};
    }

    /** slot_for. */
    method SlotAt(gw: nat) returns (i: nat)
      requires Valid()
      ensures i == SlotFor(Value(), gw)
    {
      hide Newest; hide Ring.Window;
      i := orders.Length;
      if gw == 0 || gw <= idBase {
        return;
      }
      var local := gw - idBase - 1;
      if local < orders.Length && orders[local].orderId == gw {
        i := local;
      }
    }

    /** gw_from_me. */
    method GatewayId(me: nat) returns (gw: nat)
      requires Valid()
      ensures gw == GwFromMe(Value(), me)
    {
      hide Newest; hide Ring.Window;
      gw := if me == 0 || me > meToGw.Length then 0 else meToGw[me - 1];
    }

    method Set(i: nat, s: Slot)
      requires Valid() && i < orders.Length
      modifies orders
      ensures Valid() && Value() == old(Value()).(orders := old(Value()).orders[i := s])
    {
      hide Newest; hide Ring.Window;
      orders[i] := s;
    }

    /** slot_apply_fill, nothing when there is no slot. */
    method Fill(i: nat, qty: nat)
      requires Valid()
      modifies orders
      ensures Valid() && Value() == FillAt(old(Value()), i, qty)
    {
      hide Newest; hide Ring.Window; hide ApplyFill;
      if i < orders.Length {
        Set(i, ApplyFill(orders[i], qty));
      }
    }

    /** push_event. */
    method Emit(m: Message)
      requires Valid()
      modifies stream, stream.ring, stream.ring.buf
      ensures Valid() && Value() == Publish(old(Value()), m)
    {
      hide Newest; hide Ring.Window;
      stream.Push(m);
    }

    method AccountOf(i: nat) returns (account: nat)
      requires Valid()
      ensures account == AccountAt(Value(), i)
    {
      account := if i < orders.Length then orders[i].account else 0;
    }

    /** A trade in process_staged_events. */
    method OnTrade(e: Event)
      requires Valid() && e.Trade?
      modifies orders, stream, stream.ring, stream.ring.buf
      ensures Valid() && Value() == Registry.OnTrade(old(Value()), e)
    {
      hide Newest; hide Ring.Window; hide SlotFor; hide GwFromMe; hide FillAt; hide AccountAt; hide Snapshot;
      var aggGw := GatewayId(e.aggressor);
      var restGw := GatewayId(e.resting);
      var agg := SlotAt(aggGw);
      var rest := SlotAt(restGw);
      Fill(agg, e.tradeQty);
      Fill(rest, e.tradeQty);
      var aggAccount := AccountOf(agg);
      var restAccount := AccountOf(rest);
      Emit(TradeMsg(e.tradeId, aggGw, restGw, e.aggressorSide, e.tradePrice, e.tradeQty, aggAccount, restAccount));
      if rest < orders.Length {
        Emit(Snapshot(orders[rest]));
      }
    }

    /** An order event in process_staged_events. */
    method OnOrder(e: Event)
      requires Valid() && e.OrderEvent?
      modifies orders, stream, stream.ring, stream.ring.buf
      ensures Valid() && Value() == Registry.OnOrder(old(Value()), e)
    {
      hide Newest; hide Ring.Window; hide SlotFor; hide GwFromMe; hide Snapshot; hide ApplyEvent; hide Terminal;
      hide StatusOf;
      var gw := GatewayId(e.id);
      if gw == 0 {
        return;
      }
      var i := SlotAt(gw);
      if i < orders.Length && Terminal(orders[i]) {
        return;
      }
      if i < orders.Length {
        var s := ApplyEvent(orders[i], e);
        Set(i, s);
        Emit(Snapshot(s));
      } else {
        Emit(OrderMsg(gw, 0, e.side, e.kind, e.price, e.original, e.remain, e.filled, StatusOf(e)));
      }
    }

    /** The loop of process_staged_events. */
    method ProcessStaged(stage: Stage)
      requires Valid() && stage.Valid() && stage !in repr && stage.buf !in repr
      modifies orders, stream, stream.ring, stream.ring.buf
      ensures Valid() && Value() == OnAll(old(Value()), stage.Contents())
    {
      hide Newest; hide Ring.Window; hide Registry.OnTrade; hide Registry.OnOrder; hide Stream.Valid;
      ghost var staged, r0 := stage.Contents(), Value();
      var i := 0;
      while i < stage.count
        invariant 0 <= i <= stage.count && Valid()
        invariant OnAll(Value(), staged[i..]) == OnAll(r0, staged)
      {
        assert staged[i..][1..] == staged[i + 1..] && staged[i..][0] == stage.buf[i];
        if stage.buf[i].Trade? {
          OnTrade(stage.buf[i]);
        } else {
          OnOrder(stage.buf[i]);
        }
        i := i + 1;
      }
    }

    // ----- the registry's part of bridge_submit

    /** Pre-registers a new order. */
    method Register(o: G.Raw, gw: nat)
      requires Valid()
      modifies orders
      ensures Valid() && Value() == BridgeSpec.Register(old(Value()), o, gw)
    {
      hide NewSlot;
      if o.action == G.ACT_NEW && gw > idBase && gw - idBase - 1 < orders.Length {
        Set(gw - idBase - 1, NewSlot(o, gw));
      }
    }

    /** Records the engine's id of a new order. */
    method Bind(o: G.Raw, gw: nat, me: nat)
      requires Valid()
      modifies orders, meToGw
      ensures Valid() && Value() == BridgeSpec.Bind(old(Value()), o, gw, me)
    {
      hide Newest; hide Ring.Window;
      if o.action == G.ACT_NEW && gw > idBase && gw - idBase - 1 < orders.Length && 1 <= me <= meToGw.Length {
        var i := gw - idBase - 1;
        orders[i] := orders[i].(meId := me);
        meToGw[me - 1] := gw;
      }
    }

    /** The synthetic rejection of an order no event has touched. */
    method RejectUntouched(o: G.Raw, gw: nat)
      requires Valid()
      modifies orders, stream, stream.ring, stream.ring.buf
      ensures Valid() && Value() == BridgeSpec.RejectUntouched(old(Value()), o, gw)
    {
      hide Newest; hide Ring.Window;
      if o.action == G.ACT_NEW && gw > idBase && gw - idBase - 1 < orders.Length {
        var i := gw - idBase - 1;
        if orders[i].orderId == gw && !orders[i].touched {
          var s := orders[i].(status := SlotStatus.Rejected, touched := true);
          Set(i, s);
          var m := Snapshot(s);
          assert m.OrderMsg?;
          Emit(m.(filled := 0));
        }
      }
    }
  }
}
