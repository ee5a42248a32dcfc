/**
 The contents of the order pool, the level payloads, the id table and the free-stack as one value, the
 agreement between them, and the effect of every primitive step of the book on that value.
 */
module BookState {
  import opened Types
  import opened PriceTime
  import opened BookSpec
  import opened AvlTree

  /** One slot of the order pool. Id 0 marks a free slot. */
  datatype Order = Order(id: nat, price: int, qtyRemain: nat, side: Side, prev: nat, next: nat, qty: nat, expiry: nat)

  /** The order slots that queue at each price of one side, oldest first. */
  type Queues = map<int, seq<nat>>

  datatype State = State(
    orders: seq<Order>,
    queues: Sided<Queues>,
    items: Sided<map<int, Item>>,
    ids: map<nat, nat>,
    free: seq<nat>,
    totals: Sided<int>)

  // ----- what a queue stands for

  function RestOf(o: Order): Rest {
    Rest(o.id, o.price, o.qtyRemain, o.qty, o.expiry)
  }

  function RestAt(orders: seq<Order>, i: nat): Rest {
    if i < |orders| then RestOf(orders[i]) else Rest(0, 0, 0, 0, 0)
  }

  function Rests(orders: seq<Order>, q: seq<nat>): seq<Rest> {
    seq(|q|, i requires 0 <= i < |q| => RestAt(orders, q[i]))
  }

  function View(orders: seq<Order>, m: Queues): Levels {
    map p | p in m :: Rests(orders, m[p])
  }

  /** One side of the book as the sequence of its resting orders. */
  ghost function SideOf(s: State, side: Side): seq<Rest> {
    Flat(side, View(s.orders, s.queues.Get(side)))
  }

  lemma ViewAt(orders: seq<Order>, m: Queues, p: int)
    requires p in m
    ensures p in View(orders, m) && View(orders, m)[p] == Rests(orders, m[p])
  {
  }

  /** A slot that is emptied, or goes on holding the same order. */
  predicate Outlives(a: Order, b: Order) {
    b.id == 0 || (b.id == a.id && b.expiry == a.expiry)
  }

  /** Both sides show the same levels. */
  ghost predicate SameViews(s: State, s': State) {
    && View(s'.orders, s'.queues.bid) == View(s.orders, s.queues.bid)
    && View(s'.orders, s'.queues.ask) == View(s.orders, s.queues.ask)
  }

  // ----- the parts of the agreement

  function Before(q: seq<nat>, i: nat): nat
    requires i < |q|
  {
    if i == 0 then NIL else q[i - 1]
  }

  function After(q: seq<nat>, i: nat): nat
    requires i < |q|
  {
    if i == |q| - 1 then NIL else q[i + 1]
  }

  /** The i-th slot of q is doubly linked to its neighbours. */
  ghost predicate LinkedAt(orders: seq<Order>, q: seq<nat>, i: nat) {
    i < |q| && q[i] < |orders| && orders[q[i]].prev == Before(q, i) && orders[q[i]].next == After(q, i)
  }

  ghost predicate Distinct(q: seq<nat>) {
    forall i, j | 0 <= i < j < |q| :: q[i] != q[j]
  }

  ghost predicate Belongs(orders: seq<Order>, side: Side, p: int, x: nat) {
    x < |orders| && orders[x].id != 0 && orders[x].side == side && orders[x].price == p
  }

  /** A FIFO queue: each slot once, linked head to tail, every order of that side and price. */
  ghost predicate QueueOk(orders: seq<Order>, side: Side, p: int, q: seq<nat>) {
    && Distinct(q)
    && (forall i | 0 <= i < |q| :: Belongs(orders, side, p, q[i]))
    && (forall i | 0 <= i < |q| :: LinkedAt(orders, q, i))
  }

  function ItemOf(orders: seq<Order>, p: int, q: seq<nat>): Item {
    Item(p, Qty(Rests(orders, q)), |q|, if q == [] then NIL else q[0], if q == [] then NIL else q[|q| - 1])
  }

  /** Every queue is well linked and its level carries the true sums and end points. */
  ghost predicate LevelOk(orders: seq<Order>, side: Side, p: int, q: seq<nat>, items: map<int, Item>) {
    QueueOk(orders, side, p, q) && p in items && items[p] == ItemOf(orders, p, q)
  }

  ghost predicate LevelsOk(orders: seq<Order>, side: Side, m: Queues, items: map<int, Item>) {
    items.Keys == m.Keys && forall p | p in m :: LevelOk(orders, side, p, m[p], items)
  }

  ghost predicate BothOk(orders: seq<Order>, queues: Sided<Queues>, items: Sided<map<int, Item>>) {
    LevelsOk(orders, Bid, queues.bid, items.bid) && LevelsOk(orders, Ask, queues.ask, items.ask)
  }

  /** Slot x is in no queue. */
  ghost predicate Detached(queues: Sided<Queues>, x: nat) {
    && (forall p | p in queues.bid :: x !in queues.bid[p])
    && (forall p | p in queues.ask :: x !in queues.ask[p])
  }

  /** Slot x is in the queue of its own side and price. */
  ghost predicate Home(orders: seq<Order>, queues: Sided<Queues>, x: nat) {
    x < |orders| && var m := queues.Get(orders[x].side); orders[x].price in m && x in m[orders[x].price]
  }

  ghost predicate HomesOk(orders: seq<Order>, queues: Sided<Queues>, flight: set<nat>) {
    && (forall x | 0 <= x < |orders| && orders[x].id != 0 && x !in flight :: Home(orders, queues, x))
    && (forall x | x in flight :: x < |orders| && orders[x].id != 0 && Detached(queues, x))
  }

  /** The id table lists exactly the live slots, except those in `unlisted`. */
  ghost predicate IdsOk(orders: seq<Order>, ids: map<nat, nat>, unlisted: set<nat>) {
    && (forall id | id in ids :: id != 0 && ids[id] < |orders| && orders[ids[id]].id == id && ids[id] !in unlisted)
    && (forall x | 0 <= x < |orders| && orders[x].id != 0 && x !in unlisted ::
          orders[x].id in ids && ids[orders[x].id] == x)
    && (forall x | x in unlisted :: x < |orders| && orders[x].id != 0)
  }

  /** The free-stack lists each empty slot once. */
  ghost predicate FreeOk(orders: seq<Order>, free: seq<nat>) {
    && Distinct(free)
    && (forall i | 0 <= i < |free| :: free[i] < |orders| && orders[free[i]].id == 0)
    && (forall x | 0 <= x < |orders| && orders[x].id == 0 :: x in free)
  }

  /**
   All structures agree. The slots in `flight` are live but in no queue; those in `unlisted` are live but not
   in the id table. Both sets are empty between operations.
   */
  ghost predicate Ok(s: State, flight: set<nat>, unlisted: set<nat>) {
    && |s.orders| == MAX_ORDERS
    && BothOk(s.orders, s.queues, s.items)
    && HomesOk(s.orders, s.queues, flight)
    && IdsOk(s.orders, s.ids, unlisted)
    && FreeOk(s.orders, s.free)
    && |s.free| + |s.ids| + |unlisted| == MAX_ORDERS
    && |SideOf(s, Bid)| + |SideOf(s, Ask)| + |flight| == |s.ids| + |unlisted|
    && s.totals.bid == Qty(SideOf(s, Bid)) && s.totals.ask == Qty(SideOf(s, Ask))
  }

  // ----- frames

  /** The two pools differ in links only. */
  ghost predicate SameBody(a: seq<Order>, b: seq<Order>) {
    |a| == |b| && forall i | 0 <= i < |a| :: b[i] == a[i].(prev := b[i].prev, next := b[i].next)
  }

  lemma SameBodyRests(a: seq<Order>, b: seq<Order>, q: seq<nat>)
    requires SameBody(a, b)
    ensures Rests(a, q) == Rests(b, q)
  {
  }

  lemma SameBodyTables(a: seq<Order>, b: seq<Order>, ids: map<nat, nat>, unlisted: set<nat>, free: seq<nat>)
    requires SameBody(a, b) && IdsOk(a, ids, unlisted) && FreeOk(a, free)
    ensures IdsOk(b, ids, unlisted) && FreeOk(b, free)
  {
  }

  lemma RestsFrame(a: seq<Order>, b: seq<Order>, q: seq<nat>)
    requires |a| == |b| && forall i | 0 <= i < |q| && q[i] < |a| :: a[q[i]] == b[q[i]]
    ensures Rests(a, q) == Rests(b, q)
  {
    assert forall i | 0 <= i < |q| :: RestAt(a, q[i]) == RestAt(b, q[i]);
  }

  lemma QueueFrame(a: seq<Order>, b: seq<Order>, side: Side, p: int, q: seq<nat>)
    requires QueueOk(a, side, p, q) && |a| == |b|
    requires forall i | 0 <= i < |q| && q[i] < |a| :: a[q[i]] == b[q[i]]
    ensures QueueOk(b, side, p, q)
  {
    forall i | 0 <= i < |q|
      ensures LinkedAt(b, q, i) && Belongs(b, side, p, q[i])
    {
      assert LinkedAt(a, q, i) && Belongs(a, side, p, q[i]);
    }
  }

  /** The slots of q are not written between a and b. */
  ghost predicate Untouched(a: seq<Order>, b: seq<Order>, q: seq<nat>) {
    forall i | 0 <= i < |q| && q[i] < |a| && q[i] < |b| :: a[q[i]] == b[q[i]]
  }

  /** A level whose slots are not written stays as it is. */
  lemma LevelFrame(a: seq<Order>, b: seq<Order>, side: Side, p: int, q: seq<nat>, items: map<int, Item>)
    requires LevelOk(a, side, p, q, items) && |a| == |b| && Untouched(a, b, q)
    ensures LevelOk(b, side, p, q, items) && Rests(a, q) == Rests(b, q)
  {
    QueueFrame(a, b, side, p, q);
    RestsFrame(a, b, q);
    hide QueueOk; hide Rests; hide Untouched;
  }

  lemma LevelsFrame(a: seq<Order>, b: seq<Order>, side: Side, m: Queues, items: map<int, Item>)
    requires LevelsOk(a, side, m, items) && |a| == |b|
    requires forall p | p in m :: Untouched(a, b, m[p])
    ensures LevelsOk(b, side, m, items) && View(a, m) == View(b, m)
  {
    hide LevelOk; hide Rests; hide Untouched;
    forall p | p in m
      ensures LevelOk(b, side, p, m[p], items) && Rests(a, m[p]) == Rests(b, m[p])
    {
      LevelFrame(a, b, side, p, m[p], items);
    }
  }

  lemma LevelsPriced(orders: seq<Order>, side: Side, m: Queues, items: map<int, Item>)
    requires LevelsOk(orders, side, m, items)
    ensures Priced(View(orders, m))
  {
    forall p | p in m
      ensures AllAt(Rests(orders, m[p]), p)
    {
      assert LevelOk(orders, side, p, m[p], items);
    }
  }

  // ----- level_enqueue

  /** The pool after slot x has been linked behind the tail of its level. */
  function Appended(orders: seq<Order>, tail: nat, x: nat): seq<Order>
    requires x < |orders| && (tail == NIL || tail < |orders|)
  {
    var o1 := orders[x := orders[x].(prev := tail, next := NIL)];
    if tail == NIL then o1 else o1[tail := o1[tail].(next := x)]
  }

  lemma AppendedBody(orders: seq<Order>, tail: nat, x: nat)
    requires x < |orders| && (tail == NIL || tail < |orders|)
    ensures SameBody(orders, Appended(orders, tail, x))
  {
  }

  lemma AppendedQueue(orders: seq<Order>, side: Side, p: int, q: seq<nat>, x: nat)
    requires QueueOk(orders, side, p, q) && Belongs(orders, side, p, x) && x !in q && |orders| < NIL
    ensures var tail := if q == [] then NIL else q[|q| - 1];
      (tail == NIL || tail < |orders|) && QueueOk(Appended(orders, tail, x), side, p, q + [x])
  {
    var tail := if q == [] then NIL else q[|q| - 1];
    assert q != [] ==> Belongs(orders, side, p, tail);
    var b, q' := Appended(orders, tail, x), q + [x];
    forall i | 0 <= i < |q'|
      ensures LinkedAt(b, q', i) && Belongs(b, side, p, q'[i])
    {
      if i < |q| {
        assert LinkedAt(orders, q, i) && Belongs(orders, side, p, q[i]);
      }
    }
  }

  /** Between a and b only slots of one level have been written. */
  ghost predicate OnlyLevel(a: seq<Order>, b: seq<Order>, side: Side, p: int) {
    |a| == |b| && forall i | 0 <= i < |a| && a[i] != b[i] :: Belongs(a, side, p, i)
  }

  /** Every other level keeps its queue and its payload. */
  lemma OtherLevel(a: seq<Order>, b: seq<Order>, side: Side, p: int, side': Side, p': int, q': seq<nat>,
                   items: map<int, Item>)
    requires OnlyLevel(a, b, side, p) && LevelOk(a, side', p', q', items) && (side' != side || p' != p)
    ensures LevelOk(b, side', p', q', items) && Rests(b, q') == Rests(a, q')
  {
    assert Untouched(a, b, q');
    LevelFrame(a, b, side', p', q', items);
  }

  lemma OppositeKept(a: seq<Order>, b: seq<Order>, side: Side, p: int, m: Queues, items: map<int, Item>)
    requires OnlyLevel(a, b, side, p) && LevelsOk(a, side.Opposite(), m, items)
    ensures LevelsOk(b, side.Opposite(), m, items) && View(b, m) == View(a, m)
  {
    hide LevelOk; hide OnlyLevel; hide Rests;
    forall p' | p' in m
      ensures LevelOk(b, side.Opposite(), p', m[p'], items) && Rests(b, m[p']) == Rests(a, m[p'])
    {
      OtherLevel(a, b, side, p, side.Opposite(), p', m[p'], items);
    }
  }

  lemma ItemElsewhere(orders: seq<Order>, side: Side, p: int, q: seq<nat>, items: map<int, Item>, p': int, it: Item)
    requires LevelOk(orders, side, p, q, items) && p' != p
    ensures LevelOk(orders, side, p, q, items[p' := it])
  {
  }

  /** Replacing one level of a side, while only slots of that level are written. */
  lemma LevelReplaced(a: seq<Order>, b: seq<Order>, side: Side, p: int, m: Queues, items: map<int, Item>, q: seq<nat>)
    requires OnlyLevel(a, b, side, p) && LevelsOk(a, side, m, items) && p in m && QueueOk(b, side, p, q)
    ensures LevelsOk(b, side, m[p := q], items[p := ItemOf(b, p, q)])
    ensures View(b, m[p := q]) == View(a, m)[p := Rests(b, q)]
  {
    var m', items' := m[p := q], items[p := ItemOf(b, p, q)];
    assert LevelOk(b, side, p, q, items');
    hide LevelOk; hide OnlyLevel; hide Rests; hide ItemOf; hide QueueOk;
    forall p' | p' in m && p' != p
      ensures LevelOk(b, side, p', m[p'], items') && Rests(b, m[p']) == Rests(a, m[p'])
    {
      OtherLevel(a, b, side, p, side, p', m[p'], items);
      ItemElsewhere(b, side, p', m[p'], items, p, ItemOf(b, p, q));
    }
    assert LevelsOk(b, side, m', items');
    ViewUpdate(a, b, m, p, q);
  }

  lemma ViewUpdate(a: seq<Order>, b: seq<Order>, m: Queues, p: int, q: seq<nat>)
    requires p in m && forall p' | p' in m && p' != p :: Rests(b, m[p']) == Rests(a, m[p'])
    ensures View(b, m[p := q]) == View(a, m)[p := Rests(b, q)]
  {
    hide Rests;
    var v, w := View(b, m[p := q]), View(a, m)[p := Rests(b, q)];
    assert v.Keys == m.Keys && w.Keys == m.Keys;
    forall p' | p' in v.Keys
      ensures v[p'] == w[p']
    {
      if p' != p {
        assert Rests(b, m[p']) == Rests(a, m[p']);
      }
    }
  }

  /** The level of slot x exists and its tail is a slot. */
  predicate EnqueueReady(s: State, x: nat) {
    && x < |s.orders|
    && var o := s.orders[x];
    && o.price in s.queues.Get(o.side) && o.price in s.items.Get(o.side)
    && var it := s.items.Get(o.side)[o.price];
    && it.price == o.price && (it.tail == NIL || it.tail < |s.orders|)
  }

  function Enqueue(s: State, x: nat): State
    requires EnqueueReady(s, x)
  {
    var o := s.orders[x];
    var m, it := s.queues.Get(o.side), s.items.Get(o.side)[o.price];
    var it' := Item(o.price, it.total + o.qtyRemain, it.count + 1, if it.tail == NIL then x else it.head, x);
    s.(orders := Appended(s.orders, it.tail, x),
       queues := s.queues.With(o.side, m[o.price := m[o.price] + [x]]),
       items := s.items.With(o.side, s.items.Get(o.side)[o.price := it']),
       totals := s.totals.With(o.side, s.totals.Get(o.side) + o.qtyRemain))
  }

  /** The level that x joins. */
  lemma AppendLevel(orders: seq<Order>, side: Side, p: int, q: seq<nat>, items: map<int, Item>, x: nat)
    requires LevelOk(orders, side, p, q, items) && Belongs(orders, side, p, x) && x !in q && |orders| < NIL
    ensures var it := items[p];
      && it.price == p && (it.tail == NIL || it.tail < |orders|)
      && var b := Appended(orders, it.tail, x);
      && OnlyLevel(orders, b, side, p) && SameBody(orders, b)
      && QueueOk(b, side, p, q + [x])
      && Rests(b, q + [x]) == Rests(orders, q) + [RestOf(orders[x])]
      && ItemOf(b, p, q + [x])
           == Item(p, it.total + orders[x].qtyRemain, it.count + 1, if it.tail == NIL then x else it.head, x)
  {
    AppendedQueue(orders, side, p, q, x);
    assert q != [] ==> Belongs(orders, side, p, q[|q| - 1]);
    var b := Appended(orders, items[p].tail, x);
    AppendedBody(orders, items[p].tail, x);
    hide QueueOk;
    SameBodyRests(orders, b, q + [x]);
    AppendRests(orders, q, x);
    hide Rests; hide Appended;
    assert (q + [x])[0] == if q == [] then x else q[0];
  }

  lemma EnqueueLevels(s: State, x: nat, side: Side, p: int)
    requires |s.orders| < NIL && x < |s.orders| && Belongs(s.orders, side, p, x) && Detached(s.queues, x)
    requires BothOk(s.orders, s.queues, s.items)
    requires p in s.queues.Get(side)
    ensures EnqueueReady(s, x)
    ensures var s' := Enqueue(s, x);
      && SameBody(s.orders, s'.orders) && |s'.orders| == |s.orders|
      && BothOk(s'.orders, s'.queues, s'.items)
      && var v := View(s.orders, s.queues.Get(side));
      && View(s'.orders, s'.queues.Get(side)) == v[p := v[p] + [RestOf(s.orders[x])]]
      && View(s'.orders, s'.queues.Get(side.Opposite())) == View(s.orders, s.queues.Get(side.Opposite()))
  {
    var m, items := s.queues.Get(side), s.items.Get(side);
    assert LevelOk(s.orders, side, p, m[p], items);
    ViewAt(s.orders, m, p);
    hide View; hide LevelOk; hide OnlyLevel; hide Rests; hide ItemOf; hide QueueOk; hide Appended; hide SameBody;
    AppendLevel(s.orders, side, p, m[p], items, x);
    var b := Enqueue(s, x).orders;
    var c := side.Opposite();
    LevelReplaced(s.orders, b, side, p, m, items, m[p] + [x]);
    OppositeKept(s.orders, b, side, p, s.queues.Get(c), s.items.Get(c));
  }

  lemma AppendRests(orders: seq<Order>, q: seq<nat>, x: nat)
    requires x < |orders|
    ensures Rests(orders, q + [x]) == Rests(orders, q) + [RestOf(orders[x])]
    ensures Qty(Rests(orders, q + [x])) == Qty(Rests(orders, q)) + orders[x].qtyRemain
  {
    var r := [RestOf(orders[x])];
    assert Rests(orders, q + [x]) == Rests(orders, q) + r;
    QtyConcat(Rests(orders, q), r);
    assert Qty(r) == orders[x].qtyRemain;
  }

  lemma EnqueueHomes(s: State, x: nat, side: Side, p: int, orders': seq<Order>, flight: set<nat>)
    requires HomesOk(s.orders, s.queues, flight) && x in flight && SameBody(s.orders, orders')
    requires Belongs(s.orders, side, p, x) && p in s.queues.Get(side)
    ensures var m := s.queues.Get(side);
      HomesOk(orders', s.queues.With(side, m[p := m[p] + [x]]), flight - {x})
  {
    var m := s.queues.Get(side);
    var queues' := s.queues.With(side, m[p := m[p] + [x]]);
    forall y | 0 <= y < |orders'| && orders'[y].id != 0 && y !in flight - {x}
      ensures Home(orders', queues', y)
    {
      assert y != x ==> Home(s.orders, s.queues, y);
    }
    forall y | y in flight - {x}
      ensures Detached(queues', y)
    {
      assert Detached(s.queues, y);
    }
  }

  lemma EnterSizes(side: Side, v: Levels, r: Rest)
    requires Priced(v) && r.price in v
    ensures var f := Flat(side, v[r.price := v[r.price] + [r]]);
      && f == Enter(side, Flat(side, v), r)
      && |f| == |Flat(side, v)| + 1 && Qty(f) == Qty(Flat(side, v)) + r.qty
  {
    FlatEnter(side, v, r);
    FlatSizes(side, v, r.price, v[r.price] + [r]);
    QtyConcat(v[r.price], [r]);
    assert Qty([r]) == r.qty;
  }

  /** level_enqueue: the order leaves the flight and enters its side by price-time priority. */
  lemma EnqueueOk(s: State, x: nat, flight: set<nat>, unlisted: set<nat>)
    requires Ok(s, flight, unlisted) && x in flight
    requires s.orders[x].price in s.queues.Get(s.orders[x].side)
    ensures var o := s.orders[x];
      && EnqueueReady(s, x)
      && var s' := Enqueue(s, x);
      && Ok(s', flight - {x}, unlisted)
      && SideOf(s', o.side) == Enter(o.side, SideOf(s, o.side), RestOf(o))
      && SameBody(s.orders, s'.orders)
      && (var v := View(s.orders, s.queues.Get(o.side));
          o.price in v && View(s'.orders, s'.queues.Get(o.side)) == v[o.price := v[o.price] + [RestOf(o)]])
      && View(s'.orders, s'.queues.Get(o.side.Opposite())) == View(s.orders, s.queues.Get(o.side.Opposite()))
  {
    hide BothOk; hide HomesOk; hide IdsOk; hide FreeOk; hide Appended; hide View; hide SameBody; hide Flat; hide Qty;
    hide Priced; hide Detached;
    FlightFacts(s.orders, s.queues, flight, x);
    var o := s.orders[x];
    EnqueueLevels(s, x, o.side, o.price);
    var s' := Enqueue(s, x);
    EnqueueHomes(s, x, o.side, o.price, s'.orders, flight);
    SameBodyTables(s.orders, s'.orders, s.ids, unlisted, s.free);
    BothPriced(s, o.side, o.price);
    EnterSizes(o.side, View(s.orders, s.queues.Get(o.side)), RestOf(o));
    assert |flight - {x}| == |flight| - 1;
  }

  lemma FlightFacts(orders: seq<Order>, queues: Sided<Queues>, flight: set<nat>, x: nat)
    requires HomesOk(orders, queues, flight) && x in flight
    ensures x < |orders| && orders[x].id != 0 && Detached(queues, x)
  {
  }

  lemma BothPriced(s: State, side: Side, p: int)
    requires BothOk(s.orders, s.queues, s.items)
    ensures Priced(View(s.orders, s.queues.Get(side)))
    ensures p in View(s.orders, s.queues.Get(side)) <==> p in s.queues.Get(side)
  {
    LevelsPriced(s.orders, side, s.queues.Get(side), s.items.Get(side));
  }

  // ----- level_dequeue

  /** The pool after slot x has been unlinked from its neighbours. */
  function Unlinked(orders: seq<Order>, x: nat): seq<Order>
    requires x < |orders|
    requires orders[x].prev == NIL || orders[x].prev < |orders|
    requires orders[x].next == NIL || orders[x].next < |orders|
  {
    var o := orders[x];
    var a := if o.prev == NIL then orders else orders[o.prev := orders[o.prev].(next := o.next)];
    var b := if o.next == NIL then a else a[o.next := a[o.next].(prev := o.prev)];
    b[x := b[x].(prev := NIL, next := NIL)]
  }

  lemma UnlinkedBody(orders: seq<Order>, x: nat)
    requires x < |orders|
    requires orders[x].prev == NIL || orders[x].prev < |orders|
    requires orders[x].next == NIL || orders[x].next < |orders|
    ensures SameBody(orders, Unlinked(orders, x))
  {
  }

  lemma UnlinkedQueue(orders: seq<Order>, side: Side, p: int, q: seq<nat>, k: nat)
    requires QueueOk(orders, side, p, q) && k < |q| && |orders| < NIL
    ensures var x := q[k];
      && x < |orders| && orders[x].prev == Before(q, k) && orders[x].next == After(q, k)
      && (orders[x].prev == NIL || orders[x].prev < |orders|)
      && (orders[x].next == NIL || orders[x].next < |orders|)
      && OnlyLevel(orders, Unlinked(orders, x), side, p)
      && QueueOk(Unlinked(orders, x), side, p, RemoveAt(q, k))
  {
    var x := q[k];
    assert LinkedAt(orders, q, k) && Belongs(orders, side, p, x);
    assert k > 0 ==> Belongs(orders, side, p, q[k - 1]);
    assert k + 1 < |q| ==> Belongs(orders, side, p, q[k + 1]);
    var b, q' := Unlinked(orders, x), RemoveAt(q, k);
    forall i | 0 <= i < |q'|
      ensures LinkedAt(b, q', i) && Belongs(b, side, p, q'[i])
    {
      var j := if i < k then i else i + 1;
      assert q'[i] == q[j];
      assert LinkedAt(orders, q, j) && Belongs(orders, side, p, q[j]);
    }
  }

  /** Slot x is the k-th of its level, and its neighbours are slots. */
  predicate DequeueReady(s: State, x: nat, k: nat) {
    && x < |s.orders|
    && var o := s.orders[x];
    && o.price in s.queues.Get(o.side) && o.price in s.items.Get(o.side)
    && k < |s.queues.Get(o.side)[o.price]| && s.queues.Get(o.side)[o.price][k] == x
    && var it := s.items.Get(o.side)[o.price];
    && it.price == o.price && it.total >= o.qtyRemain && it.count > 0
    && (o.prev == NIL || o.prev < |s.orders|)
    && (o.next == NIL || o.next < |s.orders|)
  }

  function Dequeue(s: State, x: nat, k: nat): State
    requires DequeueReady(s, x, k)
  {
    var o := s.orders[x];
    var m, it := s.queues.Get(o.side), s.items.Get(o.side)[o.price];
    var it' := Item(o.price, it.total - o.qtyRemain, it.count - 1,
                    if o.prev == NIL then o.next else it.head, if o.next == NIL then o.prev else it.tail);
    s.(orders := Unlinked(s.orders, x),
       queues := s.queues.With(o.side, m[o.price := RemoveAt(m[o.price], k)]),
       items := s.items.With(o.side, s.items.Get(o.side)[o.price := it']),
       totals := s.totals.With(o.side, s.totals.Get(o.side) - o.qtyRemain))
  }

  lemma {:induction false} QtyRemoveAt(s: seq<Rest>, k: nat)
    requires k < |s|
    ensures Qty(s) == Qty(RemoveAt(s, k)) + s[k].qty
  {
    QtyConcat(s[..k], s[k..]);
    QtyConcat(s[..k], s[k + 1..]);
    assert s == s[..k] + s[k..];
    assert s[k..][1..] == s[k + 1..];
  }

  lemma RemoveRests(orders: seq<Order>, q: seq<nat>, k: nat)
    requires k < |q| && q[k] < |orders|
    ensures Rests(orders, RemoveAt(q, k)) == RemoveAt(Rests(orders, q), k)
    ensures Qty(Rests(orders, q)) == Qty(Rests(orders, RemoveAt(q, k))) + orders[q[k]].qtyRemain
  {
    assert Rests(orders, RemoveAt(q, k)) == RemoveAt(Rests(orders, q), k);
    QtyRemoveAt(Rests(orders, q), k);
  }

  /** The level that slot q[k] leaves. */
  lemma RemoveLevel(orders: seq<Order>, side: Side, p: int, q: seq<nat>, items: map<int, Item>, k: nat)
    requires LevelOk(orders, side, p, q, items) && k < |q| && |orders| < NIL
    ensures var x, it := q[k], items[p];
      && x < |orders|
      && (orders[x].prev == NIL || orders[x].prev < |orders|)
      && (orders[x].next == NIL || orders[x].next < |orders|)
      && it.price == p && it.total >= orders[x].qtyRemain && it.count > 0
      && var b := Unlinked(orders, x);
      && OnlyLevel(orders, b, side, p) && SameBody(orders, b)
      && QueueOk(b, side, p, RemoveAt(q, k))
      && Rests(b, RemoveAt(q, k)) == RemoveAt(Rests(orders, q), k)
      && ItemOf(b, p, RemoveAt(q, k))
           == Item(p, it.total - orders[x].qtyRemain, it.count - 1,
                   if orders[x].prev == NIL then orders[x].next else it.head,
                   if orders[x].next == NIL then orders[x].prev else it.tail)
  {
    UnlinkedQueue(orders, side, p, q, k);
    UnlinkedBody(orders, q[k]);
    RemoveEnds(orders, side, p, q, k);
    hide QueueOk; hide Unlinked; hide Rests; hide SameBody; hide OnlyLevel;
    SameBodyRests(orders, Unlinked(orders, q[k]), RemoveAt(q, k));
    RemoveRests(orders, q, k);
  }

  /** The end points of a queue after a removal. */
  lemma RemoveEnds(orders: seq<Order>, side: Side, p: int, q: seq<nat>, k: nat)
    requires QueueOk(orders, side, p, q) && k < |q| && |orders| < NIL
    ensures var q' := RemoveAt(q, k);
      && (if q' == [] then NIL else q'[0]) == (if Before(q, k) == NIL then After(q, k) else q[0])
      && (if q' == [] then NIL else q'[|q'| - 1]) == (if After(q, k) == NIL then Before(q, k) else q[|q| - 1])
  {
    assert k > 0 ==> Belongs(orders, side, p, q[k - 1]);
    assert k + 1 < |q| ==> Belongs(orders, side, p, q[k + 1]);
  }

  lemma DequeueLevels(s: State, x: nat, side: Side, p: int, k: nat)
    requires |s.orders| < NIL && BothOk(s.orders, s.queues, s.items)
    requires p in s.queues.Get(side) && k < |s.queues.Get(side)[p]| && s.queues.Get(side)[p][k] == x
    ensures x < |s.orders| && s.orders[x].side == side && s.orders[x].price == p && s.orders[x].id != 0
    ensures DequeueReady(s, x, k)
    ensures OnlyLevel(s.orders, Dequeue(s, x, k).orders, side, p)
    ensures var s' := Dequeue(s, x, k);
      && SameBody(s.orders, s'.orders) && |s'.orders| == |s.orders|
      && BothOk(s'.orders, s'.queues, s'.items)
      && var v := View(s.orders, s.queues.Get(side));
      && k < |v[p]| && v[p][k] == RestOf(s.orders[x])
      && View(s'.orders, s'.queues.Get(side)) == v[p := RemoveAt(v[p], k)]
      && View(s'.orders, s'.queues.Get(side.Opposite())) == View(s.orders, s.queues.Get(side.Opposite()))
  {
    hide BothOk; hide View; hide LevelOk; hide OnlyLevel; hide ItemOf; hide QueueOk; hide Unlinked; hide SameBody;
    hide Rests; hide LevelsOk; hide RemoveAt;
    var c := side.Opposite();
    var m, items := s.queues.Get(side), s.items.Get(side);
    TakeLevel(s, side, p, k);
    TakeSide(s, side);
    TakeSide(s, c);
    RemoveLevel(s.orders, side, p, m[p], items, k);
    var s' := Dequeue(s, x, k);
    LevelReplaced(s.orders, s'.orders, side, p, m, items, RemoveAt(m[p], k));
    OppositeKept(s.orders, s'.orders, side, p, s.queues.Get(c), s.items.Get(c));
    SameLength(s.orders, s'.orders);
    PutSides(s', side);
  }

  lemma TakeSide(s: State, side: Side)
    requires BothOk(s.orders, s.queues, s.items)
    ensures LevelsOk(s.orders, side, s.queues.Get(side), s.items.Get(side))
  {
  }

  lemma PutSides(s: State, side: Side)
    requires LevelsOk(s.orders, side, s.queues.Get(side), s.items.Get(side))
    requires LevelsOk(s.orders, side.Opposite(), s.queues.Get(side.Opposite()), s.items.Get(side.Opposite()))
    ensures BothOk(s.orders, s.queues, s.items)
  {
    hide LevelsOk;
  }

  /** What is known about the k-th order of a level. */
  lemma TakeLevel(s: State, side: Side, p: int, k: nat)
    requires BothOk(s.orders, s.queues, s.items)
    requires p in s.queues.Get(side) && k < |s.queues.Get(side)[p]|
    ensures var q := s.queues.Get(side)[p]; var v := View(s.orders, s.queues.Get(side));
      && p in s.items.Get(side) && LevelOk(s.orders, side, p, q, s.items.Get(side))
      && Belongs(s.orders, side, p, q[k])
      && p in v && v[p] == Rests(s.orders, q) && k < |v[p]| && v[p][k] == RestOf(s.orders[q[k]])
  {
  }

  lemma SameLength(a: seq<Order>, b: seq<Order>)
    requires SameBody(a, b)
    ensures |a| == |b|
  {
  }

  lemma DequeueHomes(s: State, x: nat, side: Side, p: int, k: nat, orders': seq<Order>, flight: set<nat>)
    requires HomesOk(s.orders, s.queues, flight) && SameBody(s.orders, orders') && BothOk(s.orders, s.queues, s.items)
    requires Belongs(s.orders, side, p, x)
    requires p in s.queues.Get(side) && k < |s.queues.Get(side)[p]| && s.queues.Get(side)[p][k] == x
    ensures var m := s.queues.Get(side);
      HomesOk(orders', s.queues.With(side, m[p := RemoveAt(m[p], k)]), flight + {x})
    ensures x !in flight
  {
    var m := s.queues.Get(side);
    var queues' := s.queues.With(side, m[p := RemoveAt(m[p], k)]);
    assert LevelOk(s.orders, side, p, m[p], s.items.Get(side));
    assert x in m[p];
    forall y | 0 <= y < |orders'| && orders'[y].id != 0 && y !in flight + {x}
      ensures Home(orders', queues', y)
    {
      assert Home(s.orders, s.queues, y);
      if s.orders[y].side == side && s.orders[y].price == p {
        StillIn(m[p], k, y);
      }
    }
    forall y | y in flight
      ensures Detached(queues', y)
    {
      assert Detached(s.queues, y);
    }
    LeavesAll(s.orders, s.queues, s.items, side, p, k);
  }

  lemma StillIn(q: seq<nat>, k: nat, y: nat)
    requires k < |q| && y != q[k] && y in q
    ensures y in RemoveAt(q, k)
  {
    var i :| 0 <= i < |q| && q[i] == y;
    assert RemoveAt(q, k)[if i < k then i else i - 1] == y;
  }

  /** A slot stands in one queue only. */
  lemma LeavesAll(orders: seq<Order>, queues: Sided<Queues>, items: Sided<map<int, Item>>, side: Side, p: int, k: nat)
    requires BothOk(orders, queues, items) && p in queues.Get(side) && k < |queues.Get(side)[p]|
    ensures var m := queues.Get(side);
      Detached(queues.With(side, m[p := RemoveAt(m[p], k)]), m[p][k])
  {
    var m := queues.Get(side);
    var x := m[p][k];
    assert LevelOk(orders, side, p, m[p], items.Get(side));
    assert Belongs(orders, side, p, x);
    assert x !in RemoveAt(m[p], k);
    forall c: Side, p' | p' in queues.Get(c) && (c != side || p' != p)
      ensures x !in queues.Get(c)[p']
    {
      assert LevelOk(orders, c, p', queues.Get(c)[p'], items.Get(c));
    }
  }

  /** The id of a queued, listed order occurs once among the resting orders. */
  lemma QueuedOnce(s: State, side: Side, p: int, k: nat, flight: set<nat>, unlisted: set<nat>)
    requires BothOk(s.orders, s.queues, s.items) && HomesOk(s.orders, s.queues, flight)
    requires IdsOk(s.orders, s.ids, unlisted) && unlisted <= flight
    requires p in s.queues.Get(side) && k < |s.queues.Get(side)[p]|
    ensures var v := View(s.orders, s.queues.Get(side));
      && k < |v[p]| && OnlyAt(v, v[p][k].id, p, k)
  {
    var m := s.queues.Get(side);
    var x := m[p][k];
    var v: Levels := View(s.orders, m);
    assert LevelOk(s.orders, side, p, m[p], s.items.Get(side));
    assert Belongs(s.orders, side, p, x);
    forall p': int, i: nat | p' in m && i < |m[p']| && (p' != p || i != k)
      ensures v[p'][i].id != v[p][k].id
    {
      assert LevelOk(s.orders, side, p', m[p'], s.items.Get(side));
      var y := m[p'][i];
      assert Belongs(s.orders, side, p', y);
      assert y in m[p'] && x in m[p];
    }
    NoIdAround(v[p], k);
  }

  lemma NoIdAround(s: seq<Rest>, k: nat)
    requires k < |s| && forall i | 0 <= i < |s| && i != k :: s[i].id != s[k].id
    ensures NoId(s[..k], s[k].id) && NoId(s[k + 1..], s[k].id)
  {
  }

  lemma WithoutSizes(side: Side, v: Levels, p: int, k: nat)
    requires p in v && k < |v[p]| && OnlyAt(v, v[p][k].id, p, k)
    ensures var f := Flat(side, v[p := RemoveAt(v[p], k)]);
      && f == Without(Flat(side, v), v[p][k].id)
      && |f| == |Flat(side, v)| - 1 && Qty(f) == Qty(Flat(side, v)) - v[p][k].qty
  {
    FlatWithout(side, v, v[p][k].id, p, k);
    FlatSizes(side, v, p, RemoveAt(v[p], k));
    QtyRemoveAt(v[p], k);
  }

  /** level_dequeue: the order leaves its side; the others keep their places. Its level may now be empty. */
  lemma DequeueOk(s: State, x: nat, side: Side, p: int, k: nat, flight: set<nat>, unlisted: set<nat>)
    requires Ok(s, flight, unlisted) && unlisted <= flight
    requires p in s.queues.Get(side) && k < |s.queues.Get(side)[p]| && s.queues.Get(side)[p][k] == x
    ensures x < |s.orders| && s.orders[x].side == side && s.orders[x].price == p && x !in flight
    ensures DequeueReady(s, x, k)
    ensures OnlyLevel(s.orders, Dequeue(s, x, k).orders, side, p) && SameBody(s.orders, Dequeue(s, x, k).orders)
    ensures var s' := Dequeue(s, x, k);
      && Ok(s', flight + {x}, unlisted)
      && SideOf(s', side) == Without(SideOf(s, side), s.orders[x].id)
      && (var v := View(s.orders, s.queues.Get(side));
          p in v && k < |v[p]| && View(s'.orders, s'.queues.Get(side)) == v[p := RemoveAt(v[p], k)])
      && View(s'.orders, s'.queues.Get(side.Opposite())) == View(s.orders, s.queues.Get(side.Opposite()))
  {
    hide BothOk; hide HomesOk; hide IdsOk; hide FreeOk; hide Unlinked; hide View; hide SameBody; hide Flat; hide Qty;
    hide OnlyAt; hide RemoveAt; hide LevelOk; hide OnlyLevel;
    TakeLevel(s, side, p, k);
    DequeueLevels(s, x, side, p, k);
    var s' := Dequeue(s, x, k);
    DequeueHomes(s, x, side, p, k, s'.orders, flight);
    SameBodyTables(s.orders, s'.orders, s.ids, unlisted, s.free);
    QueuedOnce(s, side, p, k, flight, unlisted);
    WithoutSizes(side, View(s.orders, s.queues.Get(side)), p, k);
  }

  // ----- opening and closing an empty level

  function Open(s: State, side: Side, p: int): State {
    s.(queues := s.queues.With(side, s.queues.Get(side)[p := []]),
       items := s.items.With(side, s.items.Get(side)[p := Item(p, 0, 0, NIL, NIL)]))
  }

  function Close(s: State, side: Side, p: int): State {
    s.(queues := s.queues.With(side, s.queues.Get(side) - {p}),
       items := s.items.With(side, s.items.Get(side) - {p}))
  }

  lemma OpenLevels(orders: seq<Order>, side: Side, m: Queues, items: map<int, Item>, p: int)
    requires LevelsOk(orders, side, m, items) && p !in m
    ensures LevelsOk(orders, side, m[p := []], items[p := Item(p, 0, 0, NIL, NIL)])
    ensures View(orders, m[p := []]) == View(orders, m)[p := []]
  {
    var m', items' := m[p := []], items[p := Item(p, 0, 0, NIL, NIL)];
    assert LevelOk(orders, side, p, [], items');
    hide LevelOk; hide Rests;
    forall p' | p' in m
      ensures LevelOk(orders, side, p', m[p'], items')
    {
      ItemElsewhere(orders, side, p', m[p'], items, p, Item(p, 0, 0, NIL, NIL));
    }
  }

  lemma CloseLevels(orders: seq<Order>, side: Side, m: Queues, items: map<int, Item>, p: int)
    requires LevelsOk(orders, side, m, items) && p in m && m[p] == []
    ensures LevelsOk(orders, side, m - {p}, items - {p})
    ensures View(orders, m - {p}) == View(orders, m) - {p}
  {
    forall p' | p' in m - {p}
      ensures LevelOk(orders, side, p', m[p'], items - {p})
    {
      assert LevelOk(orders, side, p', m[p'], items);
    }
  }

  lemma OpenHomes(orders: seq<Order>, queues: Sided<Queues>, flight: set<nat>, side: Side, p: int)
    requires HomesOk(orders, queues, flight) && p !in queues.Get(side)
    ensures HomesOk(orders, queues.With(side, queues.Get(side)[p := []]), flight)
  {
    var queues' := queues.With(side, queues.Get(side)[p := []]);
    assert forall x | Home(orders, queues, x) :: Home(orders, queues', x);
    assert forall x | Detached(queues, x) :: Detached(queues', x);
  }

  lemma CloseHomes(orders: seq<Order>, queues: Sided<Queues>, flight: set<nat>, side: Side, p: int)
    requires HomesOk(orders, queues, flight) && p in queues.Get(side) && queues.Get(side)[p] == []
    ensures HomesOk(orders, queues.With(side, queues.Get(side) - {p}), flight)
  {
    var queues' := queues.With(side, queues.Get(side) - {p});
    assert forall x | Home(orders, queues, x) :: Home(orders, queues', x);
    assert forall x | Detached(queues, x) :: Detached(queues', x);
  }

  lemma OpenOk(s: State, side: Side, p: int, flight: set<nat>, unlisted: set<nat>)
    requires Ok(s, flight, unlisted) && p !in s.queues.Get(side)
    ensures Ok(Open(s, side, p), flight, unlisted)
    ensures var s' := Open(s, side, p);
      && View(s'.orders, s'.queues.Get(side)) == View(s.orders, s.queues.Get(side))[p := []]
      && View(s'.orders, s'.queues.Get(side.Opposite())) == View(s.orders, s.queues.Get(side.Opposite()))
      && SideOf(s', Bid) == SideOf(s, Bid) && SideOf(s', Ask) == SideOf(s, Ask)
  {
    hide BothOk; hide LevelsOk; hide HomesOk; hide IdsOk; hide FreeOk; hide View; hide Flat; hide Qty;
    TakeSide(s, side);
    TakeSide(s, side.Opposite());
    OpenLevels(s.orders, side, s.queues.Get(side), s.items.Get(side), p);
    OpenHomes(s.orders, s.queues, flight, side, p);
    ViewKeys(s.orders, s.queues.Get(side));
    FlatOpen(side, View(s.orders, s.queues.Get(side)), p);
    PutSides(Open(s, side, p), side);
  }

  lemma CloseOk(s: State, side: Side, p: int, flight: set<nat>, unlisted: set<nat>)
    requires Ok(s, flight, unlisted) && p in s.queues.Get(side) && s.queues.Get(side)[p] == []
    ensures Ok(Close(s, side, p), flight, unlisted)
    ensures var s' := Close(s, side, p);
      && View(s'.orders, s'.queues.Get(side)) == View(s.orders, s.queues.Get(side)) - {p}
      && View(s'.orders, s'.queues.Get(side.Opposite())) == View(s.orders, s.queues.Get(side.Opposite()))
      && SideOf(s', Bid) == SideOf(s, Bid) && SideOf(s', Ask) == SideOf(s, Ask)
  {
    hide BothOk; hide LevelsOk; hide HomesOk; hide IdsOk; hide FreeOk; hide View; hide Flat; hide Qty;
    TakeSide(s, side);
    TakeSide(s, side.Opposite());
    CloseLevels(s.orders, side, s.queues.Get(side), s.items.Get(side), p);
    CloseHomes(s.orders, s.queues, flight, side, p);
    ViewAt(s.orders, s.queues.Get(side), p);
    FlatDropEmpty(side, View(s.orders, s.queues.Get(side)), p);
    PutSides(Close(s, side, p), side);
  }

  lemma ViewKeys(orders: seq<Order>, m: Queues)
    ensures View(orders, m).Keys == m.Keys
  {
  }

  // ----- filling part of a resting order

  predicate ReduceReady(s: State, x: nat, f: nat) {
    && x < |s.orders| && f <= s.orders[x].qtyRemain
    && var o := s.orders[x];
    && o.price in s.items.Get(o.side) && f <= s.items.Get(o.side)[o.price].total
    && s.items.Get(o.side)[o.price].price == o.price
  }

  function Reduce(s: State, x: nat, f: nat): State
    requires ReduceReady(s, x, f)
  {
    var o := s.orders[x];
    var items := s.items.Get(o.side);
    s.(orders := s.orders[x := o.(qtyRemain := o.qtyRemain - f)],
       items := s.items.With(o.side, items[o.price := items[o.price].(total := items[o.price].total - f)]),
       totals := s.totals.With(o.side, s.totals.Get(o.side) - f))
  }

  lemma {:induction false} QtySet(s: seq<Rest>, k: nat, r: Rest)
    requires k < |s|
    ensures Qty(s[k := r]) == Qty(s) - s[k].qty + r.qty
  {
    QtyRemoveAt(s, k);
    QtyRemoveAt(s[k := r], k);
    assert RemoveAt(s[k := r], k) == RemoveAt(s, k);
  }

  lemma ReduceQueue(orders: seq<Order>, side: Side, p: int, q: seq<nat>, x: nat, o: Order)
    requires QueueOk(orders, side, p, q) && Belongs(orders, side, p, x)
    requires o == orders[x].(qtyRemain := o.qtyRemain)
    ensures QueueOk(orders[x := o], side, p, q) && OnlyLevel(orders, orders[x := o], side, p)
  {
    var b := orders[x := o];
    forall i | 0 <= i < |q|
      ensures LinkedAt(b, q, i) && Belongs(b, side, p, q[i])
    {
      assert LinkedAt(orders, q, i) && Belongs(orders, side, p, q[i]);
    }
  }

  lemma ReduceRests(orders: seq<Order>, q: seq<nat>, k: nat, o: Order)
    requires Distinct(q) && k < |q| && q[k] < |orders| && o.qtyRemain <= orders[q[k]].qtyRemain
    ensures Rests(orders[q[k] := o], q) == Rests(orders, q)[k := RestOf(o)]
    ensures Qty(Rests(orders[q[k] := o], q)) == Qty(Rests(orders, q)) - orders[q[k]].qtyRemain + o.qtyRemain
    ensures orders[q[k]].qtyRemain <= Qty(Rests(orders, q))
  {
    assert Rests(orders[q[k] := o], q) == Rests(orders, q)[k := RestOf(o)];
    QtySet(Rests(orders, q), k, RestOf(o));
    QtyRemoveAt(Rests(orders, q), k);
  }

  /** The level in which slot q[k] loses quantity. */
  lemma ReduceLevel(orders: seq<Order>, side: Side, p: int, q: seq<nat>, items: map<int, Item>, k: nat, f: nat)
    requires LevelOk(orders, side, p, q, items) && k < |q|
    requires q[k] < |orders| && f <= orders[q[k]].qtyRemain
    ensures var x := q[k]; var b := orders[x := orders[x].(qtyRemain := orders[x].qtyRemain - f)];
      && items[p].price == p && f <= items[p].total
      && OnlyLevel(orders, b, side, p)
      && QueueOk(b, side, p, q)
      && Rests(b, q) == Rests(orders, q)[k := RestOf(b[x])]
      && ItemOf(b, p, q) == items[p].(total := items[p].total - f)
  {
    var x := q[k];
    var o := orders[x].(qtyRemain := orders[x].qtyRemain - f);
    LevelFacts(orders, side, p, q, items, k);
    hide LevelOk; hide QueueOk; hide OnlyLevel; hide Rests; hide Qty;
    ReduceQueue(orders, side, p, q, x, o);
    ReduceRests(orders, q, k, o);
  }

  lemma LevelFacts(orders: seq<Order>, side: Side, p: int, q: seq<nat>, items: map<int, Item>, k: nat)
    requires LevelOk(orders, side, p, q, items) && k < |q|
    ensures QueueOk(orders, side, p, q) && Distinct(q) && Belongs(orders, side, p, q[k])
    ensures p in items && items[p] == ItemOf(orders, p, q)
  {
  }

  lemma WriteKeeps(s: State, x: nat, o: Order, flight: set<nat>, unlisted: set<nat>)
    requires HomesOk(s.orders, s.queues, flight) && IdsOk(s.orders, s.ids, unlisted) && FreeOk(s.orders, s.free)
    requires x < |s.orders| && o.id == s.orders[x].id
    requires x in flight || (o.side == s.orders[x].side && o.price == s.orders[x].price)
    ensures HomesOk(s.orders[x := o], s.queues, flight)
    ensures IdsOk(s.orders[x := o], s.ids, unlisted) && FreeOk(s.orders[x := o], s.free)
  {
    var b := s.orders[x := o];
    forall y | 0 <= y < |b| && b[y].id != 0 && y !in flight
      ensures Home(b, s.queues, y)
    {
      assert Home(s.orders, s.queues, y);
    }
  }

  lemma ReduceSizes(side: Side, v: Levels, p: int, k: nat, r: Rest)
    requires p in v && k < |v[p]| && r.qty <= v[p][k].qty
    ensures var g := Flat(side, v[p := v[p][k := r]]);
      |g| == |Flat(side, v)| && Qty(g) == Qty(Flat(side, v)) - v[p][k].qty + r.qty
  {
    FlatSizes(side, v, p, v[p][k := r]);
    QtySet(v[p], k, r);
  }

  lemma ReduceOk(s: State, side: Side, p: int, k: nat, f: nat, flight: set<nat>, unlisted: set<nat>)
    requires Ok(s, flight, unlisted)
    requires p in s.queues.Get(side) && k < |s.queues.Get(side)[p]|
    requires s.queues.Get(side)[p][k] < |s.orders| && f <= s.orders[s.queues.Get(side)[p][k]].qtyRemain
    ensures var x := s.queues.Get(side)[p][k];
      && s.orders[x].side == side && s.orders[x].price == p
      && ReduceReady(s, x, f)
      && var s' := Reduce(s, x, f); var v := View(s.orders, s.queues.Get(side));
      && Ok(s', flight, unlisted)
      && p in v && k < |v[p]| && v[p][k] == RestOf(s.orders[x])
      && View(s'.orders, s.queues.Get(side)) == v[p := v[p][k := RestOf(s'.orders[x])]]
      && View(s'.orders, s.queues.Get(side.Opposite())) == View(s.orders, s.queues.Get(side.Opposite()))
  {
    hide BothOk; hide HomesOk; hide IdsOk; hide FreeOk; hide View; hide Flat; hide Qty; hide LevelOk; hide QueueOk;
    hide OnlyLevel; hide ItemOf; hide Rests; hide LevelsOk;
    var x, c := s.queues.Get(side)[p][k], side.Opposite();
    var m, items := s.queues.Get(side), s.items.Get(side);
    TakeLevel(s, side, p, k);
    TakeSide(s, side);
    TakeSide(s, c);
    ReduceLevel(s.orders, side, p, m[p], items, k, f);
    var s' := Reduce(s, x, f);
    LevelReplaced(s.orders, s'.orders, side, p, m, items, m[p]);
    OppositeKept(s.orders, s'.orders, side, p, s.queues.Get(c), s.items.Get(c));
    assert m[p := m[p]] == m;
    PutSides(s', side);
    WriteKeeps(s, x, s'.orders[x], flight, unlisted);
    ReduceSizes(side, View(s.orders, m), p, k, RestOf(s'.orders[x]));
  }

  // ----- slots outside every queue

  /** Writing a slot that is in no queue disturbs no level. */
  lemma WriteDetached(s: State, x: nat, o: Order)
    requires BothOk(s.orders, s.queues, s.items) && x < |s.orders| && Detached(s.queues, x)
    ensures BothOk(s.orders[x := o], s.queues, s.items)
    ensures View(s.orders[x := o], s.queues.bid) == View(s.orders, s.queues.bid)
    ensures View(s.orders[x := o], s.queues.ask) == View(s.orders, s.queues.ask)
  {
    hide LevelOk;
    LevelsFrame(s.orders, s.orders[x := o], Bid, s.queues.bid, s.items.bid);
    LevelsFrame(s.orders, s.orders[x := o], Ask, s.queues.ask, s.items.ask);
  }

  lemma EmptySlotDetached(s: State, x: nat)
    requires BothOk(s.orders, s.queues, s.items) && x < |s.orders| && s.orders[x].id == 0
    ensures Detached(s.queues, x)
  {
    forall p | p in s.queues.bid
      ensures x !in s.queues.bid[p]
    {
      assert LevelOk(s.orders, Bid, p, s.queues.bid[p], s.items.bid);
    }
    forall p | p in s.queues.ask
      ensures x !in s.queues.ask[p]
    {
      assert LevelOk(s.orders, Ask, p, s.queues.ask[p], s.items.ask);
    }
  }

  /** order_pool_alloc, and the record written into the slot. */
  function Alloc(s: State, o: Order): State
    requires s.free != [] && s.free[|s.free| - 1] < |s.orders|
  {
    s.(orders := s.orders[s.free[|s.free| - 1] := o], free := s.free[..|s.free| - 1])
  }

  lemma AllocTables(s: State, o: Order, flight: set<nat>, unlisted: set<nat>)
    requires HomesOk(s.orders, s.queues, flight) && IdsOk(s.orders, s.ids, unlisted) && FreeOk(s.orders, s.free)
    requires s.free != [] && o.id != 0
    ensures var x := s.free[|s.free| - 1];
      && x < |s.orders| && s.orders[x].id == 0 && x !in flight && x !in unlisted
      && IdsOk(s.orders[x := o], s.ids, unlisted + {x})
      && FreeOk(s.orders[x := o], s.free[..|s.free| - 1])
      && (Detached(s.queues, x) ==> HomesOk(s.orders[x := o], s.queues, flight + {x}))
  {
    var x := s.free[|s.free| - 1];
    var b := s.orders[x := o];
    forall y | 0 <= y < |b| && b[y].id != 0 && y !in flight + {x}
      ensures Home(b, s.queues, y)
    {
      assert Home(s.orders, s.queues, y);
    }
  }

  lemma AllocOk(s: State, o: Order, flight: set<nat>, unlisted: set<nat>)
    requires Ok(s, flight, unlisted) && s.free != [] && o.id != 0
    ensures var x := s.free[|s.free| - 1];
      && x < |s.orders| && x !in flight && x !in unlisted
      && Ok(Alloc(s, o), flight + {x}, unlisted + {x})
      && SameViews(s, Alloc(s, o))
  {
    hide BothOk; hide HomesOk; hide IdsOk; hide FreeOk; hide View; hide Flat; hide Qty; hide Detached;
    AllocTables(s, o, flight, unlisted);
    var x := s.free[|s.free| - 1];
    EmptySlotDetached(s, x);
    WriteDetached(s, x, o);
  }

  /** Rewriting an order in flight, under its own id. */
  lemma TouchOk(s: State, x: nat, o: Order, flight: set<nat>, unlisted: set<nat>)
    requires Ok(s, flight, unlisted) && x in flight && x < |s.orders| && o.id == s.orders[x].id
    ensures var s' := s.(orders := s.orders[x := o]);
      && Ok(s', flight, unlisted)
      && SameViews(s, s')
  {
    hide BothOk; hide HomesOk; hide IdsOk; hide FreeOk; hide View; hide Flat; hide Qty; hide Detached;
    FlightFacts(s.orders, s.queues, flight, x);
    WriteDetached(s, x, o);
    WriteKeeps(s, x, o, flight, unlisted);
  }

  /** lookup_insert. */
  lemma ListOk(s: State, x: nat, flight: set<nat>, unlisted: set<nat>)
    requires Ok(s, flight, unlisted) && x in unlisted && x < |s.orders| && s.orders[x].id !in s.ids
    ensures Ok(s.(ids := s.ids[s.orders[x].id := x]), flight, unlisted - {x})
  {
    hide BothOk; hide HomesOk; hide FreeOk; hide View; hide Flat; hide Qty;
    assert |unlisted - {x}| == |unlisted| - 1;
  }

  /** lookup_remove. */
  lemma UnlistOk(s: State, x: nat, flight: set<nat>, unlisted: set<nat>)
    requires Ok(s, flight, unlisted) && x !in unlisted && x < |s.orders| && s.orders[x].id != 0
    ensures s.orders[x].id in s.ids && s.ids[s.orders[x].id] == x
    ensures Ok(s.(ids := s.ids - {s.orders[x].id}), flight, unlisted + {x})
  {
    hide BothOk; hide HomesOk; hide FreeOk; hide View; hide Flat; hide Qty;
    var id := s.orders[x].id;
    assert |s.ids - {id}| == |s.ids| - 1;
  }

  /** order_pool_free. */
  function Release(s: State, x: nat): State
    requires x < |s.orders|
  {
    s.(orders := s.orders[x := s.orders[x].(id := 0, expiry := 0)], free := s.free + [x])
  }

  lemma ReleaseTables(s: State, x: nat, flight: set<nat>, unlisted: set<nat>)
    requires HomesOk(s.orders, s.queues, flight) && IdsOk(s.orders, s.ids, unlisted) && FreeOk(s.orders, s.free)
    requires x in flight && x in unlisted && x < |s.orders|
    ensures var s' := Release(s, x);
      && HomesOk(s'.orders, s'.queues, flight - {x})
      && IdsOk(s'.orders, s'.ids, unlisted - {x}) && FreeOk(s'.orders, s'.free)
  {
    var s' := Release(s, x);
    forall y | 0 <= y < |s'.orders| && s'.orders[y].id != 0 && y !in flight - {x}
      ensures Home(s'.orders, s'.queues, y)
    {
      assert Home(s.orders, s.queues, y);
    }
    assert s'.free[|s.free|] == x;
    forall y | 0 <= y < |s'.orders| && s'.orders[y].id == 0
      ensures y in s'.free
    {
      assert y != x ==> y in s.free;
    }
  }

  lemma ReleaseOk(s: State, x: nat, flight: set<nat>, unlisted: set<nat>)
    requires Ok(s, flight, unlisted) && x in flight && x in unlisted && x < |s.orders|
    ensures |s.free| < MAX_ORDERS
    ensures var s' := Release(s, x);
      && Ok(s', flight - {x}, unlisted - {x})
      && SameViews(s, s')
  {
    hide BothOk; hide HomesOk; hide IdsOk; hide FreeOk; hide View; hide Flat; hide Qty; hide Detached;
    FlightFacts(s.orders, s.queues, flight, x);
    WriteDetached(s, x, s.orders[x].(id := 0, expiry := 0));
    ReleaseTables(s, x, flight, unlisted);
    assert |unlisted - {x}| == |unlisted| - 1 && |flight - {x}| == |flight| - 1;
  }

  // ----- one turn of the fill loop

  /** Every live order outside the flight has something left and a valid price. */
  ghost predicate Positive(orders: seq<Order>, flight: set<nat>) {
    forall x | 0 <= x < |orders| && orders[x].id != 0 && x !in flight :: orders[x].qtyRemain > 0 && orders[x].price > 0
  }

  /** The front order of a level is filled completely: reduced to nothing, unlinked, unlisted, released. */
  lemma FillWholeOk(s: State, opp: Side, p: int, flight: set<nat>, unlisted: set<nat>)
    returns (h: nat, s1: State, s2: State, s3: State, s4: State)
    requires Ok(s, flight, unlisted) && unlisted <= flight
    requires p in s.queues.Get(opp) && s.queues.Get(opp)[p] != []
    ensures h == s.queues.Get(opp)[p][0] && Belongs(s.orders, opp, p, h)
    ensures ReduceReady(s, h, s.orders[h].qtyRemain) && s1 == Reduce(s, h, s.orders[h].qtyRemain)
    ensures DequeueReady(s1, h, 0) && s2 == Dequeue(s1, h, 0)
    ensures s3 == s2.(ids := s2.ids - {s.orders[h].id}) && h < |s3.orders| && |s3.free| < MAX_ORDERS
    ensures s4 == Release(s3, h) && Ok(s4, flight, unlisted)
    ensures s.orders[h].id in s.ids && |s4.ids| == |s.ids| - 1 && s4.ids.Keys <= s.ids.Keys
    ensures OnlyLevel(s.orders, s4.orders, opp, p)
    ensures Positive(s.orders, flight) ==> Positive(s4.orders, flight)
    ensures var v := View(s.orders, s.queues.Get(opp));
      && p in v && v[p] != [] && v[p][0] == RestOf(s.orders[h])
      && View(s4.orders, s4.queues.Get(opp)) == v[p := v[p][1..]]
    ensures View(s4.orders, s4.queues.Get(opp.Opposite())) == View(s.orders, s.queues.Get(opp.Opposite()))
  {
    hide Ok; hide View; hide Unlinked; hide RemoveAt; hide OnlyLevel; hide SameBody; hide Positive;
    h := s.queues.Get(opp)[p][0];
    OkLevel(s, opp, p, 0, flight, unlisted);
    ReduceOk(s, opp, p, 0, s.orders[h].qtyRemain, flight, unlisted);
    s1 := Reduce(s, h, s.orders[h].qtyRemain);
    DequeueOk(s1, h, opp, p, 0, flight, unlisted);
    s2 := Dequeue(s1, h, 0);
    WholeOrders(s.orders, opp, p, h, s2.orders, flight);
    SameLength(s1.orders, s2.orders);
    UnlistOk(s2, h, flight + {h}, unlisted);
    s3 := s2.(ids := s2.ids - {s2.orders[h].id});
    ReleaseOk(s3, h, flight + {h}, unlisted + {h});
    s4 := Release(s3, h);
    assert flight + {h} - {h} == flight && unlisted + {h} - {h} == unlisted;
    assert |s3.ids| == |s2.ids| - 1;
    DropFirst(View(s.orders, s.queues.Get(opp)), p, RestOf(s1.orders[h]));
  }

  /** What the steps of a complete fill leave of the order records. */
  lemma WholeOrders(orders: seq<Order>, side: Side, p: int, h: nat, c: seq<Order>, flight: set<nat>)
    requires Belongs(orders, side, p, h)
    requires var b := orders[h := orders[h].(qtyRemain := 0)]; OnlyLevel(b, c, side, p) && SameBody(b, c)
    ensures c[h].id == orders[h].id
    ensures var d := c[h := c[h].(id := 0, expiry := 0)];
      OnlyLevel(orders, d, side, p) && (Positive(orders, flight) ==> Positive(d, flight))
  {
  }

  lemma OkLevel(s: State, side: Side, p: int, k: nat, flight: set<nat>, unlisted: set<nat>)
    requires Ok(s, flight, unlisted) && p in s.queues.Get(side) && k < |s.queues.Get(side)[p]|
    ensures var x := s.queues.Get(side)[p][k]; var v := View(s.orders, s.queues.Get(side));
      && Belongs(s.orders, side, p, x)
      && p in v && k < |v[p]| && v[p][k] == RestOf(s.orders[x])
  {
    hide HomesOk; hide IdsOk; hide FreeOk; hide View; hide Flat; hide Qty;
    TakeLevel(s, side, p, k);
  }

  lemma DropFirst(v: Levels, p: int, r: Rest)
    requires p in v && v[p] != []
    ensures v[p := v[p][0 := r]][p := RemoveAt(v[p][0 := r], 0)] == v[p := v[p][1..]]
  {
    assert RemoveAt(v[p][0 := r], 0) == v[p][1..];
  }

  function Touch(s: State, x: nat, q: nat): State {
    if x < |s.orders| then s.(orders := s.orders[x := s.orders[x].(qtyRemain := q)]) else s
  }

  /** The effect of filling the front of level p against order x, on the levels and on the fill records. */
  ghost predicate FilledOne(s: State, s': State, opp: Side, p: int, x: nat, fills: seq<Fill>, fills': seq<Fill>)
    requires x < |s.orders| && x < |s'.orders|
  {
    var v, v' := View(s.orders, s.queues.Get(opp)), View(s'.orders, s'.queues.Get(opp));
    && p in v && v[p] != []
    && var h, q := v[p][0], s.orders[x].qtyRemain;
    && fills' == fills + [Fill(h.id, p, if q < h.qty then q else h.qty)]
    && s'.ids.Keys <= s.ids.Keys
    && (if q < h.qty then
          && v' == v[p := v[p][0 := h.(qty := h.qty - q)]] && |s'.ids| == |s.ids|
          && s'.orders[x] == s.orders[x].(qtyRemain := 0)
        else
          && v' == v[p := v[p][1..]] && |s'.ids| == |s.ids| - 1
          && s'.orders[x] == s.orders[x].(qtyRemain := q - h.qty))
    && View(s'.orders, s'.queues.Get(opp.Opposite())) == View(s.orders, s.queues.Get(opp.Opposite()))
  }

  /** Order x takes from the front of level p on the opposite side. */
  ghost predicate CanFill(s: State, opp: Side, p: int, x: nat) {
    && Ok(s, {x}, {x}) && x < |s.orders| && Positive(s.orders, {x})
    && s.orders[x].side == opp.Opposite() && s.orders[x].qtyRemain > 0
    && p in s.queues.Get(opp) && s.queues.Get(opp)[p] != []
  }

  lemma FrontOf(s: State, opp: Side, p: int, x: nat)
    requires CanFill(s, opp, p, x)
    ensures var h := s.queues.Get(opp)[p][0];
      && x < |s.orders| && Belongs(s.orders, opp, p, h) && h != x && s.orders[h].qtyRemain > 0
      && p in s.items.Get(opp) && s.items.Get(opp)[p].head == h
      && s.items.Get(opp)[p].price == p
  {
    hide HomesOk; hide IdsOk; hide FreeOk; hide View; hide Flat; hide Qty;
    TakeLevel(s, opp, p, 0);
  }

  /** Charging the aggressor first changes nothing the fill looks at. */
  lemma TouchFacts(s: State, opp: Side, p: int, x: nat, q: nat) returns (s0: State)
    requires CanFill(s, opp, p, x)
    ensures s0 == Touch(s, x, q) && Ok(s0, {x}, {x}) && SameViews(s, s0) && Positive(s0.orders, {x})
    ensures s0.queues == s.queues && s0.ids == s.ids && |s0.orders| == |s.orders|
    ensures s0.orders[x] == s.orders[x].(qtyRemain := q)
    ensures forall y | 0 <= y < |s.orders| && y != x :: s0.orders[y] == s.orders[y]
    ensures !Belongs(s0.orders, opp, p, x)
  {
    hide Ok; hide View;
    TouchOk(s, x, s.orders[x].(qtyRemain := q), {x}, {x});
    s0 := Touch(s, x, q);
  }

  /** The aggressor needs less than the front order has. */
  lemma FillPartOk(s: State, opp: Side, p: int, x: nat, fills: seq<Fill>) returns (h: nat, s0: State, s1: State)
    requires CanFill(s, opp, p, x)
    requires var h := s.queues.Get(opp)[p][0]; h < |s.orders| && s.orders[x].qtyRemain < s.orders[h].qtyRemain
    ensures h == s.queues.Get(opp)[p][0] && h < |s.orders|
    ensures s0 == Touch(s, x, 0) && Belongs(s0.orders, opp, p, h)
    ensures ReduceReady(s0, h, s.orders[x].qtyRemain) && s1 == Reduce(s0, h, s.orders[x].qtyRemain)
    ensures h < |s1.orders| && s1.orders[h].qtyRemain > 0
    ensures Ok(s1, {x}, {x}) && x < |s1.orders| && Positive(s1.orders, {x})
    ensures FilledOne(s, s1, opp, p, x, fills, fills + [Fill(s.orders[h].id, p, s.orders[x].qtyRemain)])
  {
    hide Ok; hide View;
    h := s.queues.Get(opp)[p][0];
    FrontOf(s, opp, p, x);
    s0 := TouchFacts(s, opp, p, x, 0);
    hide Touch;
    ReduceOk(s0, opp, p, 0, s.orders[x].qtyRemain, {x}, {x});
    s1 := Reduce(s0, h, s.orders[x].qtyRemain);
  }

  /** The aggressor needs at least what the front order has. */
  lemma FillAllOk(s: State, opp: Side, p: int, x: nat, fills: seq<Fill>)
    returns (h: nat, s0: State, s1: State, s2: State, s3: State, s4: State)
    requires CanFill(s, opp, p, x)
    requires var h := s.queues.Get(opp)[p][0]; h < |s.orders| && s.orders[x].qtyRemain >= s.orders[h].qtyRemain
    ensures h == s.queues.Get(opp)[p][0] && h < |s.orders|
    ensures s0 == Touch(s, x, s.orders[x].qtyRemain - s.orders[h].qtyRemain) && Belongs(s0.orders, opp, p, h)
    ensures Belongs(s1.orders, opp, p, h)
    ensures ReduceReady(s0, h, s.orders[h].qtyRemain) && s1 == Reduce(s0, h, s.orders[h].qtyRemain)
    ensures h < |s1.orders| && s1.orders[h].qtyRemain == 0
    ensures DequeueReady(s1, h, 0) && s2 == Dequeue(s1, h, 0)
    ensures s3 == s2.(ids := s2.ids - {s.orders[h].id}) && h < |s3.orders| && |s3.free| < MAX_ORDERS
    ensures s4 == Release(s3, h)
    ensures Ok(s4, {x}, {x}) && x < |s4.orders| && Positive(s4.orders, {x})
    ensures FilledOne(s, s4, opp, p, x, fills, fills + [Fill(s.orders[h].id, p, s.orders[h].qtyRemain)])
  {
    hide Ok; hide View; hide Positive; hide Release; hide Dequeue;
    FrontOf(s, opp, p, x);
    s0 := TouchFacts(s, opp, p, x, s.orders[x].qtyRemain - s.orders[s.queues.Get(opp)[p][0]].qtyRemain);
    hide Touch;
    h, s1, s2, s3, s4 := FillWholeOk(s0, opp, p, {x}, {x});
  }

  /** One turn of the fill loop is one step of Match on the side's sequence. */
  lemma FilledOneProgress(s: State, s': State, opp: Side, p: int, x: nat, fills: seq<Fill>, fills': seq<Fill>,
                          limit: int, s0: seq<Rest>, q0: nat, tail: seq<Rest>)
    requires x < |s.orders| && x < |s'.orders| && FilledOne(s, s', opp, p, x, fills, fills')
    requires s.orders[x].qtyRemain > 0 && Crosses(opp, limit, p) && Priced(View(s.orders, s.queues.Get(opp)))
    requires Progress(opp, limit, s0, q0, fills, View(s.orders, s.queues.Get(opp))[p] + tail, s.orders[x].qtyRemain)
    ensures p in View(s'.orders, s'.queues.Get(opp))
    ensures Progress(opp, limit, s0, q0, fills', View(s'.orders, s'.queues.Get(opp))[p] + tail, s'.orders[x].qtyRemain)
    ensures View(s'.orders, s'.queues.Get(opp)) - {p} == View(s.orders, s.queues.Get(opp)) - {p}
  {
    hide View; hide Progress;
    var v, q := View(s.orders, s.queues.Get(opp)), s.orders[x].qtyRemain;
    var h, c := v[p][0], v[p] + tail;
    assert AllAt(v[p], p);
    assert c[0] == h && c[1..] == v[p][1..] + tail;
    if q < h.qty {
      ProgressPart(opp, limit, s0, q0, fills, c, q);
      assert v[p][0 := h.(qty := h.qty - q)] + tail == [h.(qty := h.qty - q)] + c[1..];
    } else {
      ProgressWhole(opp, limit, s0, q0, fills, c, q);
    }
  }

  lemma OkPriced(s: State, side: Side, flight: set<nat>, unlisted: set<nat>)
    requires Ok(s, flight, unlisted)
    ensures Priced(View(s.orders, s.queues.Get(side)))
    ensures View(s.orders, s.queues.Get(side)).Keys == s.queues.Get(side).Keys == s.items.Get(side).Keys
  {
    hide HomesOk; hide IdsOk; hide FreeOk; hide Flat; hide Qty;
    LevelsPriced(s.orders, side, s.queues.Get(side), s.items.Get(side));
    ViewKeys(s.orders, s.queues.Get(side));
  }

  lemma TotalsOfLevel(s: State, side: Side, p: int)
    requires Ok(s, {}, {}) && p in s.items.Get(side)
    ensures p in View(s.orders, s.queues.Get(side))
    ensures s.items.Get(side)[p].price == p && s.items.Get(side)[p].total == Qty(View(s.orders, s.queues.Get(side))[p])
  {
    hide HomesOk; hide IdsOk; hide FreeOk; hide Flat; hide Qty; hide QueueOk;
    assert LevelOk(s.orders, side, p, s.queues.Get(side)[p], s.items.Get(side));
  }

  /** The levels listed best first are the ladder of the side. */
  lemma ListedIsLadder(s: State, side: Side, l: seq<Rung>)
    requires Ok(s, {}, {}) && NoneEmpty(View(s.orders, s.queues.Get(side))) && BestFirst(side, l)
    requires forall i | 0 <= i < |l| ::
      l[i].price in s.items.Get(side) && s.items.Get(side)[l[i].price].total == l[i].qty
    requires forall p | p in s.items.Get(side) :: exists i :: 0 <= i < |l| && l[i].price == p
    ensures Ladder(SideOf(s, side)) == l
  {
    hide Ok; hide View; hide Flat; hide Qty; hide Ladder; hide Priced;
    var m := View(s.orders, s.queues.Get(side));
    OkPriced(s, side, {}, {});
    forall i | 0 <= i < |l|
      ensures l[i].price in m && l[i].qty == Qty(m[l[i].price])
    {
      TotalsOfLevel(s, side, l[i].price);
    }
    forall p | p in m
      ensures exists i :: 0 <= i < |l| && l[i].price == p
    {
      assert p in s.items.Get(side);
    }
    LadderOf(side, l, m);
  }

  /** A level's head is NIL, and its count zero, exactly when its queue is empty. */
  lemma HeadIsEmpty(s: State, side: Side, p: int, flight: set<nat>, unlisted: set<nat>)
    requires Ok(s, flight, unlisted) && p in s.queues.Get(side)
    ensures var q, it := s.queues.Get(side)[p], s.items.Get(side)[p];
      && it.price == p && (it.head == NIL <==> q == []) && (it.count == 0 <==> q == [])
      && View(s.orders, s.queues.Get(side))[p] == Rests(s.orders, q)
      && (q == [] <==> View(s.orders, s.queues.Get(side))[p] == [])
  {
    hide HomesOk; hide IdsOk; hide FreeOk; hide Flat; hide Qty;
    assert LevelOk(s.orders, side, p, s.queues.Get(side)[p], s.items.Get(side));
    if s.queues.Get(side)[p] != [] {
      TakeLevel(s, side, p, 0);
    }
  }

  lemma FilledOneFacts(s: State, s': State, opp: Side, p: int, x: nat, fills: seq<Fill>, fills': seq<Fill>)
    requires x < |s.orders| && x < |s'.orders| && FilledOne(s, s', opp, p, x, fills, fills')
    requires CanFill(s, opp, p, x)
    ensures s'.orders[x] == s.orders[x].(qtyRemain := s'.orders[x].qtyRemain)
    ensures s'.orders[x].qtyRemain < s.orders[x].qtyRemain
    ensures s'.orders[x].qtyRemain == 0 || |fills'| + |s'.ids| == |fills| + |s.ids|
    ensures View(s'.orders, s'.queues.Get(opp.Opposite())) == View(s.orders, s.queues.Get(opp.Opposite()))
    ensures s'.ids.Keys <= s.ids.Keys
  {
    FrontOf(s, opp, p, x);
    OkLevel(s, opp, p, 0, {x}, {x});
    hide Ok; hide View; hide Positive;
  }

  ghost predicate NoneEmpty(v: Levels) {
    forall p | p in v :: v[p] != []
  }

  /** The front of a side is the front of its best level. */
  lemma FrontPrice(side: Side, v: Levels, b: int)
    requires IsBest(side, v.Keys, b) && NoneEmpty(v) && Priced(v)
    ensures Flat(side, v) == v[b] + Flat(side, v - {b})
    ensures Flat(side, v) != [] && Flat(side, v)[0].price == b
  {
    FlatBest(side, v, b);
    assert AllAt(v[b], b);
  }

  /** The level that has just been filled, seen from the whole side. */
  lemma RefillBest(side: Side, v: Levels, v': Levels, b: int)
    requires IsBest(side, v.Keys, b) && b in v' && v' - {b} == v - {b}
    ensures v'.Keys == v.Keys && Flat(side, v') == v'[b] + Flat(side, v - {b})
    ensures NoneEmpty(v) ==> NoneEmpty(v - {b})
    ensures NoneEmpty(v) && v'[b] != [] ==> NoneEmpty(v')
  {
    assert v'.Keys == (v' - {b}).Keys + {b};
    assert v.Keys == (v - {b}).Keys + {b};
    FlatBest(side, v', b);
    assert forall q | q in v' && q != b :: q in v' - {b} && v'[q] == (v' - {b})[q] == v[q];
  }

  lemma NoLevels(side: Side, v: Levels)
    requires v.Keys == {}
    ensures Flat(side, v) == []
  {
  }

  lemma RoomForFills(s: State, x: nat)
    requires Ok(s, {x}, {x})
    ensures |s.ids| < MAX_ORDERS
  {
  }

  /** Every level but p has an order. */
  ghost predicate NoneEmptyBut(v: Levels, p: int) {
    forall q | q in v && q != p :: v[q] != []
  }

  /** Queueing the last order in flight restores everything that holds between operations. */
  lemma PlaceOk(s: State, x: nat, unlisted: set<nat>)
    requires Ok(s, {x}, unlisted) && x < |s.orders| && Positive(s.orders, {x})
    requires s.orders[x].qtyRemain > 0 && s.orders[x].price > 0
    requires var o := s.orders[x];
      && o.price in s.queues.Get(o.side)
      && NoneEmptyBut(View(s.orders, s.queues.Get(o.side)), o.price)
      && NoneEmpty(View(s.orders, s.queues.Get(o.side.Opposite())))
    ensures EnqueueReady(s, x)
    ensures var s' := Enqueue(s, x);
      && Ok(s', {}, unlisted) && Positive(s'.orders, {}) && x < |s'.orders| && s'.orders[x].id == s.orders[x].id
      && NoneEmpty(View(s'.orders, s'.queues.bid)) && NoneEmpty(View(s'.orders, s'.queues.ask))
      && SideOf(s', s.orders[x].side) == Enter(s.orders[x].side, SideOf(s, s.orders[x].side), RestOf(s.orders[x]))
      && SideOf(s', s.orders[x].side.Opposite()) == SideOf(s, s.orders[x].side.Opposite())
  {
    hide Ok; hide View; hide Flat;
    EnqueueOk(s, x, {x}, unlisted);
    assert {x} - {x} == {};
    hide Enqueue;
  }

  /** The free-stack is empty exactly when the book holds as many orders as the pool has slots. */
  lemma FullIsEmptyStack(s: State)
    requires Ok(s, {}, {})
    ensures s.free == [] <==> |SideOf(s, Bid)| + |SideOf(s, Ask)| >= MAX_ORDERS
  {
    hide BothOk; hide HomesOk; hide IdsOk; hide FreeOk; hide View; hide Flat; hide Qty;
  }

  /** A new record written into a fresh slot. */
  lemma AllocPositive(s: State, o: Order)
    requires Ok(s, {}, {}) && Positive(s.orders, {}) && s.free != [] && o.id != 0
    ensures var x := s.free[|s.free| - 1];
      && x < |s.orders| && x < MAX_ORDERS
      && Ok(Alloc(s, o), {x}, {x}) && SameViews(s, Alloc(s, o)) && Positive(Alloc(s, o).orders, {x})
  {
    hide View;
    AllocOk(s, o, {}, {});
    assert {} + {s.free[|s.free| - 1]} == {s.free[|s.free| - 1]};
    hide Ok;
  }

  /** An order that was filled, or found no level, gives its slot back. */
  lemma DiscardOk(s: State, x: nat)
    requires Ok(s, {x}, {x}) && x < |s.orders| && Positive(s.orders, {x})
    ensures |s.free| < MAX_ORDERS
    ensures var s' := Release(s, x); Ok(s', {}, {}) && SameViews(s, s') && Positive(s'.orders, {}) && s'.ids == s.ids
  {
    hide View;
    ReleaseOk(s, x, {x}, {x});
    assert {x} - {x} == {};
    hide Ok;
  }

  /** The remainder of a new order, queued, is entered in the id table. */
  lemma ListLast(s: State, x: nat)
    requires Ok(s, {}, {x}) && x < |s.orders| && s.orders[x].id !in s.ids
    ensures s.orders[x].id != 0 && |s.ids| < MAX_ORDERS
    ensures Ok(s.(ids := s.ids[s.orders[x].id := x]), {}, {})
  {
    assert x in {x};
    ListOk(s, x, {}, {x});
    assert {x} - {x} == {};
    hide BothOk; hide HomesOk; hide FreeOk; hide View; hide Flat; hide Qty;
    assert |s.free| + |s.ids| + |{x}| == MAX_ORDERS;
  }

  // ----- finding an order by id

  /** The queue position of a listed order. */
  lemma Located(s: State, id: nat) returns (k: nat)
    requires Ok(s, {}, {}) && id in s.ids
    ensures var x := s.ids[id];
      && x < |s.orders| && x < MAX_ORDERS && id != 0 && s.orders[x].id == id
      && var o := s.orders[x];
      && o.price in s.queues.Get(o.side) && o.price in s.items.Get(o.side)
      && k < |s.queues.Get(o.side)[o.price]| && s.queues.Get(o.side)[o.price][k] == x
  {
    hide LevelOk; hide FreeOk; hide View; hide Flat; hide Qty;
    var x := s.ids[id];
    assert Home(s.orders, s.queues, x);
    var q := s.queues.Get(s.orders[x].side)[s.orders[x].price];
    k :| 0 <= k < |q| && q[k] == x;
  }

  /** An order on a side is the order its id is listed for. */
  lemma RestingIsListed(s: State, side: Side, i: nat)
    requires Ok(s, {}, {}) && i < |SideOf(s, side)|
    ensures var r := SideOf(s, side)[i];
      && r.id in s.ids && s.ids[r.id] < |s.orders|
      && s.orders[s.ids[r.id]].side == side && r == RestOf(s.orders[s.ids[r.id]])
  {
    var m := s.queues.Get(side);
    var p, k := FlatMember(side, View(s.orders, m), i);
    hide HomesOk; hide FreeOk; hide Flat; hide Qty;
    TakeLevel(s, side, p, k);
  }

  /** A listed order is on its side. */
  lemma ListedIsResting(s: State, id: nat) returns (i: nat)
    requires Ok(s, {}, {}) && id in s.ids
    ensures var x := s.ids[id];
      && x < |s.orders| && s.orders[x].id == id
      && i < |SideOf(s, s.orders[x].side)| && SideOf(s, s.orders[x].side)[i] == RestOf(s.orders[x])
  {
    hide Ok; hide View; hide Flat; hide Ahead; hide Behind;
    var k := Located(s, id);
    var o := s.orders[s.ids[id]];
    var v := View(s.orders, s.queues.Get(o.side));
    OkLevel(s, o.side, o.price, k, {}, {});
    FlatSplit(o.side, v, o.price);
    i := |Flat(o.side, Ahead(o.side, v, o.price))| + k;
  }

  /** Looking an id up in the table is looking for it on the two sides. */
  lemma LookupIsSearch(s: State, id: nat, b: Lob)
    requires Ok(s, {}, {}) && b.sides == Sided(SideOf(s, Bid), SideOf(s, Ask))
    ensures Live(b, id) <==> id in s.ids
    ensures id in s.ids ==> var x := s.ids[id];
      && x < |s.orders|
      && SideHolding(b, id) == s.orders[x].side
      && HasId(b.sides.Get(s.orders[x].side), id)
      && Find(b.sides.Get(s.orders[x].side), id) == RestOf(s.orders[x])
  {
    hide Ok; hide SideOf;
    forall side: Side, i: nat | i < |SideOf(s, side)|
      ensures var r := SideOf(s, side)[i];
        && r.id in s.ids && s.ids[r.id] < |s.orders|
        && s.orders[s.ids[r.id]].side == side && r == RestOf(s.orders[s.ids[r.id]])
    {
      RestingIsListed(s, side, i);
    }
    if id in s.ids {
      var i := ListedIsResting(s, id);
      var side := s.orders[s.ids[id]].side;
      assert b.sides.Get(side)[i].id == id;
      var f := Find(b.sides.Get(side), id);
      var j :| 0 <= j < |b.sides.Get(side)| && b.sides.Get(side)[j] == f;
    }
  }

  lemma OneSlot(s: State, id: nat)
    requires Ok(s, {}, {}) && id in s.ids
    ensures forall y | 0 <= y < |s.orders| && s.orders[y].id == id :: y == s.ids[id]
  {
    hide BothOk; hide HomesOk; hide FreeOk; hide View; hide Flat; hide Qty;
  }

  lemma SlotIsListed(s: State, x: nat)
    requires Ok(s, {}, {}) && x < |s.orders| && s.orders[x].id != 0
    ensures s.orders[x].id in s.ids && s.ids[s.orders[x].id] == x
  {
    hide BothOk; hide HomesOk; hide FreeOk; hide View; hide Flat; hide Qty;
  }

  /** Each order slot is on the free-stack, or in one queue, that of its own side and price, once. */
  lemma EverySlotOnce(s: State, x: nat)
    requires Ok(s, {}, {}) && x < |s.orders|
    ensures x in s.free <==> s.orders[x].id == 0
    ensures s.orders[x].id != 0 ==> Home(s.orders, s.queues, x)
    ensures forall side: Side, p: int | p in s.queues.Get(side) && x in s.queues.Get(side)[p] ::
      s.orders[x].id != 0 && side == s.orders[x].side && p == s.orders[x].price
    ensures forall side: Side, p: int | p in s.queues.Get(side) :: Distinct(s.queues.Get(side)[p])
  {
    hide IdsOk; hide View; hide Flat; hide Qty; hide LevelOk; hide Distinct;
    forall side: Side, p: int | p in s.queues.Get(side)
      ensures Distinct(s.queues.Get(side)[p])
      ensures x in s.queues.Get(side)[p] ==> s.orders[x].id != 0 && side == s.orders[x].side && p == s.orders[x].price
    {
      assert LevelOk(s.orders, side, p, s.queues.Get(side)[p], s.items.Get(side));
      QueueMembers(s.orders, side, p, s.queues.Get(side)[p], s.items.Get(side), x);
    }
  }

  lemma QueueMembers(orders: seq<Order>, side: Side, p: int, q: seq<nat>, items: map<int, Item>, x: nat)
    requires LevelOk(orders, side, p, q, items)
    ensures Distinct(q)
    ensures x in q ==> Belongs(orders, side, p, x)
  {
    hide ItemOf; hide LinkedAt;
    if x in q {
      var i :| 0 <= i < |q| && q[i] == x;
      assert Belongs(orders, side, p, q[i]);
    }
  }

  // ----- taking an order off its side

  /** Unlinking a listed order, before its level is tidied up. */
  lemma DetachOk(s: State, id: nat) returns (x: nat, k: nat)
    requires Ok(s, {}, {}) && id in s.ids && Positive(s.orders, {})
    requires NoneEmpty(View(s.orders, s.queues.bid)) && NoneEmpty(View(s.orders, s.queues.ask))
    ensures x == s.ids[id] && x < |s.orders| && s.orders[x].id == id && DequeueReady(s, x, k)
    ensures var o, s' := s.orders[x], Dequeue(s, x, k);
      && Ok(s', {x}, {}) && Positive(s'.orders, {x}) && SameBody(s.orders, s'.orders)
      && |s'.orders| == |s.orders| && s'.orders[x] == o.(prev := s'.orders[x].prev, next := s'.orders[x].next)
      && o.price in View(s'.orders, s'.queues.Get(o.side))
      && NoneEmptyBut(View(s'.orders, s'.queues.Get(o.side)), o.price)
      && NoneEmpty(View(s'.orders, s'.queues.Get(o.side.Opposite())))
      && SideOf(s', o.side) == Without(SideOf(s, o.side), id)
      && SideOf(s', o.side.Opposite()) == SideOf(s, o.side.Opposite())
  {
    hide Ok; hide View; hide Flat; hide Dequeue; hide RemoveAt;
    k := Located(s, id);
    x := s.ids[id];
    DequeueOk(s, x, s.orders[x].side, s.orders[x].price, k, {}, {});
    assert {} + {x} == {x};
  }

  // ----- the empty book

  lemma EmptyOk(s: State)
    requires |s.orders| == MAX_ORDERS && forall i | 0 <= i < |s.orders| :: s.orders[i].id == 0
    requires s.free == seq(MAX_ORDERS, i => i)
    requires s.queues == Sided(map[], map[]) && s.items == Sided(map[], map[]) && s.ids == map[]
    requires s.totals == Sided(0, 0)
    ensures Ok(s, {}, {}) && SideOf(s, Bid) == [] && SideOf(s, Ask) == [] && Positive(s.orders, {})
    ensures View(s.orders, s.queues.bid) == map[] && View(s.orders, s.queues.ask) == map[]
  {
    assert View(s.orders, s.queues.bid) == map[];
    forall x | 0 <= x < |s.orders|
      ensures x in s.free
    {
      assert s.free[x] == x;
    }
    assert FreeOk(s.orders, s.free);
    hide FreeOk;
  }

  /** The cached total of every level is the sum over its queue. */
  lemma TotalsAre(s: State, side: Side, flight: set<nat>, unlisted: set<nat>)
    requires Ok(s, flight, unlisted)
    ensures var m, v := s.items.Get(side), View(s.orders, s.queues.Get(side));
      m.Keys == v.Keys && forall p | p in m :: m[p].total == Qty(v[p])
  {
    hide HomesOk; hide IdsOk; hide FreeOk; hide Flat; hide Qty;
    forall p | p in s.items.Get(side)
      ensures s.items.Get(side)[p].total == Qty(View(s.orders, s.queues.Get(side))[p])
    {
      assert LevelOk(s.orders, side, p, s.queues.Get(side)[p], s.items.Get(side));
    }
  }
}
