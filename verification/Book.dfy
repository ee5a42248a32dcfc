/** The limit order book of engine/orderbook.c: pools, links, levels, id table and cached sums, updated in place. */
module Book {
  import opened Types
  import opened PriceTime
  import opened BookState
  import opened BookSpec
  import AvlTree
  import LevelPool
  import FreeStack
  import IdTable

  /** Fibonacci hashing of an id into the lookup table, in 64-bit arithmetic. */
  function LookupSlot(id: nat): (s: nat)
    ensures s < LOOKUP_CAP
  {
    id * 11400714819323198485 % 0x1_0000_0000_0000_0000 / 0x1_0000_0000 % LOOKUP_CAP
  }

  class Book {
    const orders: array<Order>
    const free: FreeStack.FreeStack
    const levels: LevelPool.LevelPool
    const lookup: IdTable.IdTable
    var totals: Sided<int>
    var nextId: nat
    var added: nat
    var cancelled: nat
    // The order slots queued at each price of each side, oldest first.
    ghost var queues: Sided<Queues>
    ghost const repr: set<object>

    /** The parts are well formed, sized as the header says, and do not overlap. */
    ghost predicate Wired()
      reads this, repr
    {
      && repr == {this, orders, free, free.slots, levels, levels.pool, levels.free, levels.free.slots, lookup, lookup.slots}
      && free != levels.free && free.slots != levels.free.slots
      && orders.Length == MAX_ORDERS == free.slots.Length
      && lookup.slots.Length == LOOKUP_CAP
      && free.Valid() && levels.Valid() && lookup.Valid()
    }

    ghost function Snap(): State
      requires Wired()
      reads this, repr
    {
      State(orders[..], queues, levels.items, lookup.Map(), free.Contents(), totals)
    }

    /** ob_init: an empty book; every slot of both pools is free. */
    constructor ()
      ensures Valid() && fresh(repr) && this in repr
      ensures Value() == Lob(Sided([], []), 1)
    {
      hide LookupSlot; hide LevelPool.LevelPool.Valid; hide IdTable.IdTable.Valid; hide IdTable.IdTable.Map;
      hide FreeStack.FreeStack.Valid; hide FreeStack.FreeStack.Contents; hide Ok; hide View; hide Positive; hide Flat;
      var o := new Order[MAX_ORDERS](_ => Order(0, 0, 0, Bid, NIL, NIL, 0, 0));
      var f := new FreeStack.FreeStack(MAX_ORDERS);
      var v := new LevelPool.LevelPool();
      var t := new IdTable.IdTable(LOOKUP_CAP, LookupSlot);
      orders, free, levels, lookup := o, f, v, t;
      totals := Sided(0, 0);
      nextId, added, cancelled := 1, 0, 0;
      queues := Sided(map[], map[]);
      repr := {this, o, f, f.slots, v, v.pool, v.free, v.free.slots, t, t.slots};
      new;
      EmptyOk(Snap());
    }

    /** Level slot li holds price p of one side. */
    ghost predicate LevelAt(side: Side, p: int, li: nat)
      requires Wired()
      reads this, repr
    {
      && li < levels.pool.Length && li in AvlTree.Slots(levels.trees.Get(side))
      && p in levels.items.Get(side) && levels.pool[li].item == levels.items.Get(side)[p]
    }

    /** Writes the sums of one level and of its side, with the queue they stand for. */
    method PutLevel(side: Side, li: nat, item: AvlTree.Item, total: int, ghost q: seq<nat>)
      requires Wired() && LevelAt(side, item.price, li) && levels.pool[li].item.price == item.price
      modifies this`queues, this`totals, levels, levels.pool
      ensures Wired() && LevelAt(side, item.price, li)
      ensures var s := old(Snap());
        Snap() == s.(items := s.items.With(side, s.items.Get(side)[item.price := item]),
                     totals := s.totals.With(side, total),
                     queues := s.queues.With(side, s.queues.Get(side)[item.price := q]))
    {
      hide LevelPool.LevelPool.Valid; hide IdTable.IdTable.Valid; hide IdTable.IdTable.Map; hide AvlTree.Slots;
      hide FreeStack.FreeStack.Valid; hide FreeStack.FreeStack.Contents;
      levels.Put(side, li, item);
      totals := totals.With(side, total);
      queues := queues.With(side, queues.Get(side)[item.price := q]);
    }

    /** level_enqueue, with the side total that the callers update next to it. */
    method Enqueue(li: nat, x: nat)
      requires Wired() && EnqueueReady(Snap(), x)
      requires LevelAt(orders[x].side, orders[x].price, li)
      modifies this`queues, this`totals, orders, levels, levels.pool
      ensures Wired()
      ensures Snap() == BookState.Enqueue(old(Snap()), x)
    {
      hide LevelPool.LevelPool.Valid; hide IdTable.IdTable.Valid; hide IdTable.IdTable.Map; hide AvlTree.Slots;
      hide FreeStack.FreeStack.Valid; hide FreeStack.FreeStack.Contents;
      ghost var s := orders[..];
      var o := orders[x];
      var it := levels.pool[li].item;
      orders[x] := o.(prev := it.tail, next := NIL);
      if it.tail != NIL {
        orders[it.tail] := orders[it.tail].(next := x);
      }
      assert orders[..] == Appended(s, it.tail, x);
      var head := if it.tail != NIL then it.head else x;
      PutLevel(o.side, li, AvlTree.Item(it.price, it.total + o.qtyRemain, it.count + 1, head, x),
               totals.Get(o.side) + o.qtyRemain, queues.Get(o.side)[o.price] + [x]);
    }

    /** The link updates of level_dequeue. */
    method Unlink(x: nat)
      requires x < orders.Length
      requires orders[x].prev == NIL || orders[x].prev < orders.Length
      requires orders[x].next == NIL || orders[x].next < orders.Length
      modifies orders
      ensures orders[..] == Unlinked(old(orders[..]), x)
    {
      var o := orders[x];
      if o.prev != NIL {
        orders[o.prev] := orders[o.prev].(next := o.next);
      }
      if o.next != NIL {
        orders[o.next] := orders[o.next].(prev := o.prev);
      }
      orders[x] := orders[x].(prev := NIL, next := NIL);
    }

    /** level_dequeue, with the side total that the callers update next to it. */
    method Dequeue(li: nat, x: nat, ghost k: nat)
      requires Wired() && DequeueReady(Snap(), x, k)
      requires LevelAt(orders[x].side, orders[x].price, li)
      modifies this`queues, this`totals, orders, levels, levels.pool
      ensures Wired()
      ensures Snap() == BookState.Dequeue(old(Snap()), x, k)
      ensures LevelAt(old(orders[x].side), old(orders[x].price), li)
    {
      hide LevelPool.LevelPool.Valid; hide IdTable.IdTable.Valid; hide IdTable.IdTable.Map; hide AvlTree.Slots;
      hide Unlinked; hide RemoveAt;
      hide FreeStack.FreeStack.Valid; hide FreeStack.FreeStack.Contents;
      var o := orders[x];
      var it := levels.pool[li].item;
      var head := if o.prev != NIL then it.head else o.next;
      var tail := if o.next != NIL then it.tail else o.prev;
      Unlink(x);
      PutLevel(o.side, li, AvlTree.Item(it.price, it.total - o.qtyRemain, it.count - 1, head, tail),
               totals.Get(o.side) - o.qtyRemain, RemoveAt(queues.Get(o.side)[o.price], k));
    }

    /** Takes quantity f from a resting order, its level and its side. */
    method Reduce(li: nat, x: nat, f: nat)
      requires Wired() && ReduceReady(Snap(), x, f)
      requires LevelAt(orders[x].side, orders[x].price, li)
      modifies this`totals, orders, levels, levels.pool
      ensures Wired()
      ensures Snap() == BookState.Reduce(old(Snap()), x, f)
      ensures LevelAt(old(orders[x].side), old(orders[x].price), li)
    {
      hide LevelPool.LevelPool.Valid; hide IdTable.IdTable.Valid; hide IdTable.IdTable.Map; hide AvlTree.Slots;
      hide FreeStack.FreeStack.Valid; hide FreeStack.FreeStack.Contents;
      var o := orders[x];
      var it := levels.pool[li].item;
      orders[x] := o.(qtyRemain := o.qtyRemain - f);
      levels.Put(o.side, li, it.(total := it.total - f));
      totals := totals.With(o.side, totals.Get(o.side) - f);
    }

    /** order_pool_free. */
    method Release(x: nat)
      requires Wired() && x < orders.Length && |free.Contents()| < MAX_ORDERS
      modifies orders, free, free.slots
      ensures Wired()
      ensures Snap() == BookState.Release(old(Snap()), x)
    {
      hide LevelPool.LevelPool.Valid; hide IdTable.IdTable.Valid; hide IdTable.IdTable.Map; hide AvlTree.Slots;
      orders[x] := orders[x].(id := 0, expiry := 0);
      free.Free(x);
    }

    /** level_new and avl_insert for a price the side does not hold yet. */
    method OpenLevel(side: Side, p: int) returns (li: nat)
      requires Wired() && p !in levels.items.Get(side) && levels.counts.Get(side) < MAX_LEVELS
      modifies this`queues, levels, levels.pool, levels.free
      ensures Wired()
      ensures Snap() == BookState.Open(old(Snap()), side, p)
      ensures LevelAt(side, p, li) && li < LEVEL_SLOTS
    {
      hide LevelPool.LevelPool.Valid; hide IdTable.IdTable.Valid; hide IdTable.IdTable.Map; hide AvlTree.Slots;
      hide FreeStack.FreeStack.Valid; hide FreeStack.FreeStack.Contents;
      li := levels.Open(side, p);
      queues := queues.With(side, queues.Get(side)[p := []]);
    }

    /** avl_remove of a level whose queue has run empty. */
    method CloseLevel(side: Side, p: int)
      requires Wired() && p in levels.items.Get(side)
      modifies this`queues, levels, levels.pool, levels.free, levels.free.slots
      ensures Wired()
      ensures Snap() == BookState.Close(old(Snap()), side, p)
    {
      hide LevelPool.LevelPool.Valid; hide IdTable.IdTable.Valid; hide IdTable.IdTable.Map; hide AvlTree.Slots;
      hide FreeStack.FreeStack.Valid; hide FreeStack.FreeStack.Contents;
      levels.Close(side, p);
      queues := queues.With(side, queues.Get(side) - {p});
    }

    method Unlist(id: nat)
      requires Wired()
      modifies lookup, lookup.slots
      ensures Wired()
      ensures Snap() == old(Snap()).(ids := old(Snap()).ids - {id})
    {
      hide LevelPool.LevelPool.Valid; hide IdTable.IdTable.Valid; hide IdTable.IdTable.Map; hide AvlTree.Slots;
      hide FreeStack.FreeStack.Valid; hide FreeStack.FreeStack.Contents;
      lookup.Remove(id);
    }

    method SetQty(x: nat, q: nat)
      requires Wired() && x < orders.Length
      modifies orders
      ensures Wired()
      ensures Snap() == BookState.Touch(old(Snap()), x, q)
    {
      hide LevelPool.LevelPool.Valid; hide IdTable.IdTable.Valid; hide IdTable.IdTable.Map; hide AvlTree.Slots;
      hide FreeStack.FreeStack.Valid; hide FreeStack.FreeStack.Contents;
      orders[x] := orders[x].(qtyRemain := q);
    }

    // ----- matching

    /** Order x is being matched: live, not queued, not listed. Everything else agrees. */
    ghost predicate Matching(x: nat)
      reads this, repr
    {
      && Wired() && Ok(Snap(), {x}, {x}) && x < orders.Length && Positive(orders[..], {x})
    }

    /** One turn of the inner loop: fills the front order of level p, held by slot li, against order x. */
    method FillHead(opp: Side, p: int, li: nat, x: nat, fills: seq<Fill>) returns (fills': seq<Fill>)
      requires Wired() && CanFill(Snap(), opp, p, x) && LevelAt(opp, p, li)
      requires |fills| < MAX_ORDERS
      modifies this`queues, this`totals, orders, free, free.slots, levels, levels.pool, lookup, lookup.slots
      ensures Matching(x) && LevelAt(opp, p, li)
      ensures FilledOne(old(Snap()), Snap(), opp, p, x, fills, fills')
    {
      hide Ok; hide View; hide Positive; hide FilledOne; hide CanFill;
      hide BookState.Dequeue; hide BookState.Release; hide BookState.Touch;
      hide LevelPool.LevelPool.Valid; hide IdTable.IdTable.Valid; hide IdTable.IdTable.Map; hide AvlTree.Slots;
      hide FreeStack.FreeStack.Valid; hide FreeStack.FreeStack.Contents;
      hide BookState.Reduce; hide ReduceReady; hide DequeueReady;
      FrontOf(Snap(), opp, p, x);
      var h := levels.pool[li].item.head;
      var rest := orders[h];
      var f := if orders[x].qtyRemain < rest.qtyRemain then orders[x].qtyRemain else rest.qtyRemain;
      fills' := fills;
      if |fills| < MAX_ORDERS {
        fills' := fills + [Fill(rest.id, levels.pool[li].item.price, f)];
      }
      ghost var s := Snap();
      ghost var s0, s1, s2, s3, s4, h';
      if orders[x].qtyRemain < rest.qtyRemain {
        h', s0, s1 := FillPartOk(s, opp, p, x, fills);
      } else {
        h', s0, s1, s2, s3, s4 := FillAllOk(s, opp, p, x, fills);
      }
      SetQty(x, orders[x].qtyRemain - f);
      Reduce(li, h, f);
      if orders[h].qtyRemain == 0 {
        Dequeue(li, h, 0);
        Unlist(rest.id);
        Release(h);
      }
    }

    /** What order x has to see when it is matched against side opp: it is on the other side. */
    ghost predicate Aggressor(opp: Side, x: nat)
      reads this, repr
    {
      Matching(x) && orders[x].side == opp.Opposite()
    }

    ghost function Levels(side: Side): PriceTime.Levels
      requires Wired()
      reads this, repr
    {
      View(orders[..], queues.Get(side))
    }

    /** How far matching order x against side opp has come; tail is what lies behind level p. */
    ghost predicate Filling(opp: Side, p: int, x: nat, limit: int, s0: seq<Rest>, q0: nat, tail: seq<Rest>,
                            fills: seq<Fill>)
      reads this, repr
    {
      && Aggressor(opp, x)
      && p in Levels(opp)
      && Progress(opp, limit, s0, q0, fills, Levels(opp)[p] + tail, orders[x].qtyRemain)
      && (orders[x].qtyRemain == 0 || |fills| + |Snap().ids| < MAX_ORDERS)
    }

    /** The inner loop: fills level p head first until the order is filled or the queue is empty. */
    method FillLevel(opp: Side, p: int, li: nat, x: nat, fills: seq<Fill>,
                     ghost limit: int, ghost s0: seq<Rest>, ghost q0: nat, ghost tail: seq<Rest>)
      returns (fills': seq<Fill>)
      requires Filling(opp, p, x, limit, s0, q0, tail, fills) && LevelAt(opp, p, li) && Crosses(opp, limit, p)
      modifies this`queues, this`totals, orders, free, free.slots, levels, levels.pool, lookup, lookup.slots
      ensures Filling(opp, p, x, limit, s0, q0, tail, fills') && LevelAt(opp, p, li)
      ensures orders[x] == old(orders[x]).(qtyRemain := orders[x].qtyRemain)
      ensures orders[x].qtyRemain == 0 || Levels(opp)[p] == []
      ensures Levels(opp) - {p} == old(Levels(opp)) - {p}
      ensures Levels(opp.Opposite()) == old(Levels(opp.Opposite()))
      ensures Snap().ids.Keys <= old(Snap().ids.Keys)
    {
      hide Ok; hide View; hide Positive; hide FilledOne; hide Progress;
      hide LevelPool.LevelPool.Valid; hide IdTable.IdTable.Valid; hide IdTable.IdTable.Map; hide AvlTree.Slots;
      hide FreeStack.FreeStack.Valid; hide FreeStack.FreeStack.Contents;
      fills' := fills;
      OkPriced(Snap(), opp, {x}, {x});
      HeadIsEmpty(Snap(), opp, p, {x}, {x});
      while orders[x].qtyRemain > 0 && levels.pool[li].item.head != NIL
        invariant Filling(opp, p, x, limit, s0, q0, tail, fills') && LevelAt(opp, p, li)
        invariant levels.pool[li].item.head == NIL <==> Levels(opp)[p] == []
        invariant orders[x] == old(orders[x]).(qtyRemain := orders[x].qtyRemain)
        invariant Levels(opp) - {p} == old(Levels(opp)) - {p}
        invariant Levels(opp.Opposite()) == old(Levels(opp.Opposite()))
        invariant Snap().ids.Keys <= old(Snap().ids.Keys)
        decreases orders[x].qtyRemain
      {
        ghost var s := Snap();
        ghost var before := fills';
        OkPriced(s, opp, {x}, {x});
        HeadIsEmpty(s, opp, p, {x}, {x});
        fills' := FillHead(opp, p, li, x, fills');
        FilledOneProgress(s, Snap(), opp, p, x, before, fills', limit, s0, q0, tail);
        FilledOneFacts(s, Snap(), opp, p, x, before, fills');
        OkPriced(Snap(), opp, {x}, {x});
        HeadIsEmpty(Snap(), opp, p, {x}, {x});
      }
    }

    /** Removes level p from the tree when its queue has run empty. */
    method CloseIfEmpty(side: Side, p: int, li: nat, ghost flight: set<nat>, ghost unlisted: set<nat>)
      requires Wired() && Ok(Snap(), flight, unlisted) && LevelAt(side, p, li) && p in Levels(side)
      modifies this`queues, levels, levels.pool, levels.free, levels.free.slots
      ensures Wired() && Ok(Snap(), flight, unlisted)
      ensures Snap().ids == old(Snap().ids)
      ensures Levels(side) == if old(Levels(side))[p] == [] then old(Levels(side)) - {p} else old(Levels(side))
      ensures Levels(side.Opposite()) == old(Levels(side.Opposite()))
      ensures Flat(Bid, Levels(Bid)) == old(Flat(Bid, Levels(Bid)))
      ensures Flat(Ask, Levels(Ask)) == old(Flat(Ask, Levels(Ask)))
    {
      hide Ok; hide View; hide Flat;
      hide LevelPool.LevelPool.Valid; hide IdTable.IdTable.Valid; hide IdTable.IdTable.Map; hide AvlTree.Slots;
      hide FreeStack.FreeStack.Valid; hide FreeStack.FreeStack.Contents;
      OkPriced(Snap(), side, flight, unlisted);
      HeadIsEmpty(Snap(), side, p, flight, unlisted);
      if levels.pool[li].item.count == 0 {
        CloseOk(Snap(), side, p, flight, unlisted);
        CloseLevel(side, p);
      }
    }

    /** How far matching order x against side opp has come, between levels. */
    ghost predicate Underway(opp: Side, x: nat, limit: int, s0: seq<Rest>, q0: nat, fills: seq<Fill>)
      reads this, repr
    {
      && Aggressor(opp, x)
      && NoneEmpty(Levels(opp))
      && Progress(opp, limit, s0, q0, fills, Flat(opp, Levels(opp)), orders[x].qtyRemain)
      && (orders[x].qtyRemain == 0 || |fills| + |Snap().ids| < MAX_ORDERS)
    }

    /** One turn of the outer loop. It stops at an empty side or at a best price that does not cross. */
    method MatchLevel(opp: Side, limit: int, x: nat, fills: seq<Fill>, ghost s0: seq<Rest>, ghost q0: nat)
      returns (fills': seq<Fill>, stop: bool)
      requires Underway(opp, x, limit, s0, q0, fills)
      modifies this`queues, this`totals, orders, free, free.slots, levels, levels.pool, levels.free,
               levels.free.slots, lookup, lookup.slots
      ensures Underway(opp, x, limit, s0, q0, fills')
      ensures stop ==> var s := Flat(opp, Levels(opp)); s == [] || !Crosses(opp, limit, s[0].price)
      ensures !stop ==> orders[x].qtyRemain == 0 || |Levels(opp)| < |old(Levels(opp))|
      ensures orders[x] == old(orders[x]).(qtyRemain := orders[x].qtyRemain)
      ensures Levels(opp.Opposite()) == old(Levels(opp.Opposite()))
      ensures Snap().ids.Keys <= old(Snap().ids.Keys)
    {
      hide Ok; hide View; hide Positive; hide Progress; hide Flat; hide NoneEmpty; hide Priced;
      hide LevelPool.LevelPool.Valid; hide IdTable.IdTable.Valid; hide IdTable.IdTable.Map; hide AvlTree.Slots;
      hide FreeStack.FreeStack.Valid; hide FreeStack.FreeStack.Contents;
      ghost var v := Levels(opp);
      OkPriced(Snap(), opp, {x}, {x});
      var li := levels.Best(opp);
      fills', stop := fills, true;
      if li == NIL {
        NoLevels(opp, v);
        return;
      }
      var p := levels.pool[li].item.price;
      FrontPrice(opp, v, p);
      if !Crosses(opp, limit, p) {
        return;
      }
      stop := false;
      fills' := FillLevel(opp, p, li, x, fills, limit, s0, q0, Flat(opp, v - {p}));
      RefillBest(opp, v, Levels(opp), p);
      CloseIfEmpty(opp, p, li, {x}, {x});
    }

    /** match_against_side: consumes the opposite side best level first, as Match does on its sequence. */
    method MatchAgainst(opp: Side, limit: int, x: nat) returns (fills: seq<Fill>)
      requires Aggressor(opp, x) && NoneEmpty(Levels(opp))
      modifies this`queues, this`totals, orders, free, free.slots, levels, levels.pool, levels.free,
               levels.free.slots, lookup, lookup.slots
      ensures Aggressor(opp, x) && NoneEmpty(Levels(opp))
      ensures Match(opp, old(Flat(opp, Levels(opp))), limit, old(orders[x].qtyRemain))
           == Matched(fills, Flat(opp, Levels(opp)), orders[x].qtyRemain)
      ensures orders[x] == old(orders[x]).(qtyRemain := orders[x].qtyRemain)
      ensures Levels(opp.Opposite()) == old(Levels(opp.Opposite()))
      ensures Snap().ids.Keys <= old(Snap().ids.Keys)
    {
      hide Ok; hide View; hide Positive; hide Progress; hide Flat; hide NoneEmpty; hide Priced; hide Match;
      hide LevelPool.LevelPool.Valid; hide IdTable.IdTable.Valid; hide IdTable.IdTable.Map; hide AvlTree.Slots;
      hide FreeStack.FreeStack.Valid; hide FreeStack.FreeStack.Contents;
      fills := [];
      ghost var s0, q0 := Flat(opp, Levels(opp)), orders[x].qtyRemain;
      ProgressStart(opp, limit, s0, q0);
      RoomForFills(Snap(), x);
      var stop := false;
      while orders[x].qtyRemain > 0 && !stop
        invariant Underway(opp, x, limit, s0, q0, fills)
        invariant stop ==> var s := Flat(opp, Levels(opp)); s == [] || !Crosses(opp, limit, s[0].price)
        invariant orders[x] == old(orders[x]).(qtyRemain := orders[x].qtyRemain)
        invariant Levels(opp.Opposite()) == old(Levels(opp.Opposite()))
        invariant Snap().ids.Keys <= old(Snap().ids.Keys)
        decreases !stop, if orders[x].qtyRemain > 0 then |Levels(opp)| + 1 else 0
      {
        fills, stop := MatchLevel(opp, limit, x, fills, s0, q0);
      }
      ProgressEnd(opp, limit, s0, q0, fills, Flat(opp, Levels(opp)), orders[x].qtyRemain);
    }

    // ----- placing an order on its own side

    /** No level is empty and every queued order has something left. */
    ghost predicate Tidy(flight: set<nat>)
      reads this, repr
    {
      Wired() && NoneEmpty(Levels(Bid)) && NoneEmpty(Levels(Ask)) && Positive(orders[..], flight)
    }

    /** Finds or opens the level for price p; NIL when the side is at its level limit. */
    method Destination(side: Side, p: int, ghost flight: set<nat>, ghost unlisted: set<nat>) returns (li: nat)
      requires Wired() && Ok(Snap(), flight, unlisted) && NoneEmpty(Levels(side))
      modifies this`queues, levels, levels.pool, levels.free
      ensures Wired() && Ok(Snap(), flight, unlisted) && Snap().ids == old(Snap().ids)
      ensures li == NIL <==> !HasRoom(old(Flat(side, Levels(side))), p)
      ensures li == NIL ==> Snap() == old(Snap())
      ensures li != NIL ==> LevelAt(side, p, li) && p in queues.Get(side) && NoneEmptyBut(Levels(side), p)
      ensures Levels(side.Opposite()) == old(Levels(side.Opposite()))
      ensures Flat(side, Levels(side)) == old(Flat(side, Levels(side)))
    {
      hide Ok; hide View; hide Flat; hide Positive;
      hide LevelPool.LevelPool.Valid; hide IdTable.IdTable.Valid; hide IdTable.IdTable.Map; hide AvlTree.Slots;
      hide FreeStack.FreeStack.Valid; hide FreeStack.FreeStack.Contents;
      OkPriced(Snap(), side, flight, unlisted);
      FlatLevels(side, Levels(side));
      levels.CountIs(side);
      li := levels.Find(side, p);
      if li == NIL && levels.counts.Get(side) < MAX_LEVELS {
        OpenOk(Snap(), side, p, flight, unlisted);
        li := OpenLevel(side, p);
      }
    }

    /** Queues order x at the tail of its level, unless its side is at the level limit. */
    method Place(x: nat, ghost unlisted: set<nat>) returns (ok: bool)
      requires Tidy({x}) && Ok(Snap(), {x}, unlisted) && x < orders.Length
      requires orders[x].qtyRemain > 0 && orders[x].price > 0
      modifies this`queues, this`totals, orders, levels, levels.pool, levels.free
      ensures ok == HasRoom(old(Flat(orders[x].side, Levels(orders[x].side))), old(orders[x].price))
      ensures !ok ==> Wired() && Snap() == old(Snap())
      ensures ok ==> Tidy({}) && Ok(Snap(), {}, unlisted) && Snap().ids == old(Snap().ids)
      ensures ok ==> orders[x].id == old(orders[x].id)
      ensures ok ==> var o := old(orders[x]);
        && Flat(o.side, Levels(o.side)) == Enter(o.side, old(Flat(orders[x].side, Levels(orders[x].side))), RestOf(o))
        && Flat(o.side.Opposite(), Levels(o.side.Opposite()))
             == old(Flat(orders[x].side.Opposite(), Levels(orders[x].side.Opposite())))
    {
      hide Ok; hide View; hide Flat; hide Positive;
      hide LevelPool.LevelPool.Valid; hide IdTable.IdTable.Valid; hide IdTable.IdTable.Map; hide AvlTree.Slots;
      hide FreeStack.FreeStack.Valid; hide FreeStack.FreeStack.Contents;
      var side, p := orders[x].side, orders[x].price;
      var li := Destination(side, p, {x}, unlisted);
      if li == NIL {
        return false;
      }
      PlaceOk(Snap(), x, unlisted);
      Enqueue(li, x);
      ok := true;
    }

    // ----- the operations

    ghost predicate Valid()
      reads this, repr
      ensures Valid() ==> Wired()
    {
      && Tidy({}) && Ok(Snap(), {}, {})
      && 0 < nextId && forall id | id in Snap().ids :: id < nextId
    }

    /** The book as two price-time sequences. */
    ghost function Value(): Lob
      requires Wired()
      reads this, repr
    {
      Lob(Sided(Flat(Bid, Levels(Bid)), Flat(Ask, Levels(Ask))), nextId)
    }

    /** lookup_insert for order x. */
    method List(id: nat, x: nat)
      requires Wired() && id != 0 && id !in Snap().ids && |Snap().ids| < MAX_ORDERS
      modifies lookup, lookup.slots
      ensures Wired()
      ensures Snap() == old(Snap()).(ids := old(Snap()).ids[id := x])
    {
      hide LevelPool.LevelPool.Valid; hide IdTable.IdTable.Valid; hide IdTable.IdTable.Map; hide AvlTree.Slots;
      hide FreeStack.FreeStack.Valid; hide FreeStack.FreeStack.Contents;
      lookup.Insert(id, x);
    }

    /** Takes a slot from the pool for a new order; NIL when the pool is exhausted. */
    method NewOrder(side: Side, price: int, qty: nat, expiry: nat) returns (x: nat)
      requires Valid()
      modifies this`nextId, this`added, orders, free
      ensures x == NIL <==> Count(old(Value())) >= MAX_ORDERS
      ensures x == NIL ==> Valid() && Value() == old(Value())
      ensures x != NIL ==> Matching(x) && nextId == old(nextId) + 1 && Snap().ids == old(Snap().ids)
      ensures x != NIL ==> orders[x] == Order(old(nextId), price, qty, side, NIL, NIL, qty, expiry)
      ensures x != NIL ==> Levels(Bid) == old(Levels(Bid)) && Levels(Ask) == old(Levels(Ask))
    {
      hide Ok; hide View; hide Flat; hide Positive; hide NoneEmpty;
      hide LevelPool.LevelPool.Valid; hide IdTable.IdTable.Valid; hide IdTable.IdTable.Map;
      FullIsEmptyStack(Snap());
      ghost var s, o := Snap(), Order(nextId, price, qty, side, NIL, NIL, qty, expiry);
      if s.free != [] {
        AllocPositive(s, o);
      }
      x := free.Alloc();
      if x == NIL {
        return;
      }
      orders[x] := Order(nextId, price, qty, side, NIL, NIL, qty, expiry);
      nextId := nextId + 1;
      added := added + 1;
      assert Snap() == Alloc(s, o);
    }

    /** Gives the slot of order x back without resting it. */
    method Discard(x: nat)
      requires Tidy({x}) && Ok(Snap(), {x}, {x}) && x < orders.Length
      requires 0 < nextId && forall id | id in Snap().ids :: id < nextId
      modifies orders, free, free.slots
      ensures Valid() && Value() == old(Value())
      ensures orders[..] == old(orders[..])[x := old(orders[x]).(id := 0, expiry := 0)]
    {
      hide Ok; hide View; hide Flat; hide Positive; hide NoneEmpty;
      hide LevelPool.LevelPool.Valid; hide IdTable.IdTable.Valid; hide IdTable.IdTable.Map;
      hide FreeStack.FreeStack.Valid; hide FreeStack.FreeStack.Contents;
      DiscardOk(Snap(), x);
      Release(x);
    }

    /** Rests what is left of order x, or discards it when its side has no room for its level. */
    method RestOrDiscard(x: nat) returns (ok: bool)
      requires Tidy({x}) && Ok(Snap(), {x}, {x}) && x < orders.Length
      requires orders[x].qtyRemain > 0 && orders[x].price > 0
      requires 0 < orders[x].id < nextId && orders[x].id !in Snap().ids && forall id | id in Snap().ids :: id < nextId
      modifies this`queues, this`totals, orders, free, free.slots, levels, levels.pool, levels.free, lookup, lookup.slots
      ensures Valid()
      ensures ok == HasRoom(old(Value().sides.Get(orders[x].side)), old(orders[x].price))
      ensures Value() == if !ok then old(Value()) else old(var b, o := Value(), orders[x];
        b.(sides := b.sides.With(o.side, Enter(o.side, b.sides.Get(o.side), RestOf(o)))))
    {
      hide Ok; hide View; hide Flat; hide Positive; hide NoneEmpty;
      hide LevelPool.LevelPool.Valid; hide IdTable.IdTable.Valid; hide IdTable.IdTable.Map;
      hide FreeStack.FreeStack.Valid; hide FreeStack.FreeStack.Contents;
      hide HasRoom; hide Enter;
      ok := Place(x, {x});
      if !ok {
        Discard(x);
      } else {
        ListLast(Snap(), x);
        List(orders[x].id, x);
      }
    }

    /** ob_add_order: matches against the other side, then rests what is left. */
    method AddOrder(side: Side, price: int, qty: nat, expiry: nat) returns (status: Status, id: nat, fills: seq<Fill>)
      requires Valid()
      modifies repr
      ensures Valid()
      ensures Added(Value(), status, id, fills) == Add(old(Value()), side, price, qty, expiry)
    {
      hide Ok; hide View; hide Flat; hide Positive; hide NoneEmpty;
      hide LevelPool.LevelPool.Valid; hide IdTable.IdTable.Valid; hide IdTable.IdTable.Map;
      hide FreeStack.FreeStack.Valid; hide FreeStack.FreeStack.Contents;
      hide HasRoom; hide Enter; hide Match;
      if price <= 0 || qty == 0 {
        return Rejected, 0, [];
      }
      var x := NewOrder(side, price, qty, expiry);
      if x == NIL {
        return Rejected, 0, [];
      }
      id := orders[x].id;
      fills := MatchAgainst(side.Opposite(), price, x);
      if orders[x].qtyRemain == 0 {
        Discard(x);
        status := Filled;
      } else {
        var ok := RestOrDiscard(x);
        status := if !ok then Rejected else if |fills| > 0 then Partial else Accepted;
      }
    }

    /** Takes the listed order id off its side; it stays in the id table. */
    method Detach(x: nat, ghost id: nat)
      requires Valid() && id in Snap().ids && x == Snap().ids[id] && x < orders.Length
      modifies this`queues, this`totals, orders, levels, levels.pool, levels.free, levels.free.slots
      ensures Tidy({x}) && Ok(Snap(), {x}, {}) && Snap().ids == old(Snap().ids)
      ensures orders[x] == old(orders[x]).(prev := orders[x].prev, next := orders[x].next)
      ensures SameBody(old(orders[..]), orders[..])
      ensures var side := old(orders[x].side);
        && Flat(side, Levels(side)) == Without(old(Value().sides.Get(orders[x].side)), id)
        && Flat(side.Opposite(), Levels(side.Opposite())) == old(Value().sides.Get(orders[x].side.Opposite()))
    {
      hide Ok; hide View; hide Flat; hide Positive;
      hide LevelPool.LevelPool.Valid; hide IdTable.IdTable.Valid; hide IdTable.IdTable.Map;
      hide FreeStack.FreeStack.Valid; hide FreeStack.FreeStack.Contents;
      hide BookState.Dequeue;
      var o := orders[x];
      ghost var x', k := DetachOk(Snap(), id);
      var li := levels.Find(o.side, o.price);
      Dequeue(li, x, k);
      CloseIfEmpty(o.side, o.price, li, {x}, {});
    }

    /** ob_cancel_order. */
    method CancelOrder(id: nat) returns (status: Status)
      requires Valid()
      modifies repr
      ensures Valid()
      ensures (Value(), status) == Cancel(old(Value()), id)
      ensures forall y | 0 <= y < orders.Length :: Outlives(old(orders[y]), orders[y])
      ensures status == Accepted ==> forall y | 0 <= y < orders.Length && old(orders[y].id) == id :: orders[y].id == 0
    {
      hide Ok; hide View; hide Flat; hide Positive;
      hide LevelPool.LevelPool.Valid; hide IdTable.IdTable.Valid; hide IdTable.IdTable.Map;
      hide FreeStack.FreeStack.Valid; hide FreeStack.FreeStack.Contents;
      hide Without; hide HasId; hide Find; hide NoneEmpty;
      LookupIsSearch(Snap(), id, Value());
      var x := lookup.Find(id);
      if x == NIL {
        return NotFound;
      }
      ghost var k := Located(Snap(), id);
      OneSlot(Snap(), id);
      Detach(x, id);
      DropOrder(x, id);
      cancelled := cancelled + 1;
      status := Accepted;
    }

    /** lookup_remove and order_pool_free for an order that is off its side. */
    method DropOrder(x: nat, id: nat)
      requires Tidy({x}) && Ok(Snap(), {x}, {}) && x < orders.Length && orders[x].id == id != 0
      requires 0 < nextId && forall i | i in Snap().ids :: i < nextId
      modifies orders, free, free.slots, lookup, lookup.slots
      ensures Valid() && Value() == old(Value())
      ensures forall y | 0 <= y < orders.Length && y != x :: orders[y] == old(orders[y])
      ensures orders[x].id == 0
    {
      hide Ok; hide View; hide Flat; hide Positive;
      hide LevelPool.LevelPool.Valid; hide IdTable.IdTable.Valid; hide IdTable.IdTable.Map;
      hide FreeStack.FreeStack.Valid; hide FreeStack.FreeStack.Contents;
      hide NoneEmpty;
      UnlistOk(Snap(), x, {x}, {});
      assert {} + {x} == {x};
      Unlist(id);
      Discard(x);
    }

    /** ob_modify_order: off its side, rewritten, and in again behind its peers. */
    method ModifyOrder(id: nat, newPrice: int, newQty: nat) returns (status: Status)
      requires Valid()
      modifies repr
      ensures Valid()
      ensures (Value(), status) == Modify(old(Value()), id, newPrice, newQty)
    {
      hide Ok; hide View; hide Flat; hide Positive;
      hide LevelPool.LevelPool.Valid; hide IdTable.IdTable.Valid; hide IdTable.IdTable.Map;
      hide FreeStack.FreeStack.Valid; hide FreeStack.FreeStack.Contents;
      hide Without; hide HasId; hide Find; hide HasRoom; hide Enter; hide NoneEmpty;
      if newPrice <= 0 || newQty == 0 {
        return Rejected;
      }
      LookupIsSearch(Snap(), id, Value());
      var x := lookup.Find(id);
      if x == NIL {
        return NotFound;
      }
      ghost var k := Located(Snap(), id);
      Detach(x, id);
      Amend(x, newPrice, newQty);
      var ok := Place(x, {});
      if !ok {
        DropOrder(x, id);
        return Rejected;
      }
      status := Accepted;
    }

    method Amend(x: nat, newPrice: int, newQty: nat)
      requires Tidy({x}) && Ok(Snap(), {x}, {}) && x < orders.Length
      modifies orders
      ensures Tidy({x}) && Ok(Snap(), {x}, {}) && Snap().ids == old(Snap().ids)
      ensures orders[x] == old(orders[x]).(price := newPrice, qtyRemain := newQty)
      ensures Levels(Bid) == old(Levels(Bid)) && Levels(Ask) == old(Levels(Ask))
    {
      hide Ok; hide View; hide Flat; hide NoneEmpty;
      hide LevelPool.LevelPool.Valid; hide IdTable.IdTable.Valid; hide IdTable.IdTable.Map;
      hide FreeStack.FreeStack.Valid; hide FreeStack.FreeStack.Contents;
      TouchOk(Snap(), x, orders[x].(price := newPrice, qtyRemain := newQty), {x}, {});
      orders[x] := orders[x].(price := newPrice, qtyRemain := newQty);
    }

    /** The next id of the book's sequence, used up by something that does not rest. */
    method TakeId() returns (id: nat)
      requires Valid()
      modifies this`nextId
      ensures Valid() && id == old(Value().nextId) && Value() == old(Value()).(nextId := id + 1)
    {
      hide Ok; hide View; hide Flat; hide Positive; hide NoneEmpty;
      id := nextId;
      nextId := nextId + 1;
    }

    /** ob_get_order: the record of a resting order. */
    method GetOrder(id: nat) returns (found: bool, o: Order)
      requires Valid()
      ensures found == Live(Value(), id)
      ensures found ==> o.id == id && o.side == SideHolding(Value(), id)
      ensures found ==> HasId(Value().sides.Get(o.side), id) && RestOf(o) == Find(Value().sides.Get(o.side), id)
    {
      hide Ok; hide View; hide Flat; hide Positive; hide NoneEmpty; hide Live; hide Find; hide SideHolding;
      LookupIsSearch(Snap(), id, Value());
      var x := lookup.Find(id);
      found := x != NIL;
      if found {
        ghost var k := Located(Snap(), id);
        o := orders[x];
      } else {
        o := Order(0, 0, 0, Bid, NIL, NIL, 0, 0);
      }
    }

    /** A slot whose id is not zero holds a resting order. */
    lemma SlotIsResting(x: nat)
      requires Valid() && x < orders.Length && orders[x].id != 0
      ensures Live(Value(), orders[x].id) && orders[x].side == SideHolding(Value(), orders[x].id)
      ensures RestOf(orders[x]) in Value().sides.Get(orders[x].side)
    {
      hide View; hide Flat; hide Positive; hide NoneEmpty; hide Live; hide SideHolding;
      SlotIsListed(Snap(), x);
      LookupIsSearch(Snap(), orders[x].id, Value());
    }

    /** A resting order has its slot. */
    lemma RestingHasSlot(side: Side, i: nat) returns (x: nat)
      requires Valid() && i < |Value().sides.Get(side)|
      ensures x < orders.Length && orders[x].id != 0 && RestOf(orders[x]) == Value().sides.Get(side)[i]
    {
      hide View; hide Flat; hide Positive; hide NoneEmpty; hide Ok;
      RestingIsListed(Snap(), side, i);
      x := Snap().ids[Value().sides.Get(side)[i].id];
      ghost var k := Located(Snap(), Value().sides.Get(side)[i].id);
    }

    /** ob_best_bid and ob_best_ask: the price of the front of a side, 0 when it is empty. */
    method BestPrice(side: Side) returns (p: int)
      requires Valid()
      ensures var s := Value().sides.Get(side); p == if s == [] then 0 else s[0].price
    {
      hide Ok; hide View; hide Flat; hide Positive; hide NoneEmpty; hide Priced; hide LevelPool.LevelPool.Valid;
      OkPriced(Snap(), side, {}, {});
      var li := levels.Best(side);
      if li == NIL {
        NoLevels(side, Levels(side));
        return 0;
      }
      p := levels.pool[li].item.price;
      FrontPrice(side, Levels(side), p);
    }

    /** ob_top_levels: the best prices of a side with their quantities, as many as there are or were asked for. */
    method TopLevels(side: Side, depth: nat) returns (prices: seq<int>, qtys: seq<int>)
      requires Valid()
      ensures var l := Ladder(Value().sides.Get(side));
        && |prices| == |qtys| == (if depth < |l| then depth else |l|)
        && forall i | 0 <= i < |prices| :: prices[i] == l[i].price && qtys[i] == l[i].qty
    {
      hide Ok; hide View; hide Flat; hide Positive; hide NoneEmpty; hide Ladder; hide LevelPool.LevelPool.Valid;
      hide IdTable.IdTable.Valid; hide IdTable.IdTable.Map; hide FreeStack.FreeStack.Valid;
      hide FreeStack.FreeStack.Contents; hide LevelPool.Listed;
      var buf := new nat[MAX_LEVELS];
      var listed := levels.List(side, buf);
      ghost var l := Rungs(levels.pool[..], buf[..listed]);
      ListedRungs(side, levels.pool[..], levels.items.Get(side), buf[..listed]);
      ListedIsLadder(Snap(), side, l);
      prices, qtys := CopyRungs(buf, if depth < listed then depth else listed);
    }

    /** The output loop of ob_top_levels. */
    method CopyRungs(buf: array<nat>, n: nat) returns (prices: seq<int>, qtys: seq<int>)
      requires n <= buf.Length && forall i | 0 <= i < n :: buf[i] < levels.pool.Length
      ensures |prices| == |qtys| == n
      ensures forall i | 0 <= i < n ::
        prices[i] == levels.pool[buf[i]].item.price && qtys[i] == levels.pool[buf[i]].item.total
    {
      prices, qtys := [], [];
      var i := 0;
      while i < n
        invariant 0 <= i <= n && |prices| == |qtys| == i
        invariant forall j | 0 <= j < i ::
          prices[j] == levels.pool[buf[j]].item.price && qtys[j] == levels.pool[buf[j]].item.total
      {
        prices, qtys := prices + [levels.pool[buf[i]].item.price], qtys + [levels.pool[buf[i]].item.total];
        i := i + 1;
      }
    }
  }

  /** The price and cached total of each listed slot. */
  ghost function Rungs(pool: seq<LevelPool.Level>, slots: seq<nat>): seq<Rung> {
    seq(|slots|, i requires 0 <= i < |slots| =>
      if slots[i] < |pool| then Rung(pool[slots[i]].item.price, pool[slots[i]].item.total) else Rung(0, 0))
  }

  lemma ListedRungs(side: Side, pool: seq<LevelPool.Level>, m: map<int, AvlTree.Item>, slots: seq<nat>)
    requires LevelPool.Listed(side, pool, m, slots)
    ensures var l := Rungs(pool, slots);
      && |l| == |slots| && BestFirst(side, l)
      && (forall i | 0 <= i < |slots| ::
            slots[i] < |pool| && l[i] == Rung(pool[slots[i]].item.price, pool[slots[i]].item.total))
      && (forall i | 0 <= i < |l| :: l[i].price in m && m[l[i].price].total == l[i].qty)
      && (forall p | p in m :: exists i :: 0 <= i < |l| && l[i].price == p)
  {
    hide Better;
    var l := Rungs(pool, slots);
    assert forall i | 0 <= i < |slots| :: l[i] == Rung(pool[slots[i]].item.price, pool[slots[i]].item.total);
    hide Rungs;
    forall p | p in m
      ensures exists i :: 0 <= i < |l| && l[i].price == p
    {
      var i :| 0 <= i < |slots| && pool[slots[i]].item.price == p;
      assert l[i].price == p;
    }
  }
}
