/**
 Price-time priority on plain sequences: the reference definition of the order book. One side is the sequence
 of its resting orders, the order that matches first at the front.
 */
module PriceTime {
  import opened Types

  /** A resting order, without its links and timestamps. */
  datatype Rest = Rest(id: nat, price: int, qty: nat, original: nat, expiry: nat)

  datatype Fill = Fill(restingId: nat, price: int, qty: nat)

  /** An order resting on side `opp` at price p is within the limit of an order from the other side. */
  predicate Crosses(opp: Side, limit: int, p: int) {
    if opp == Ask then p <= limit else p >= limit
  }

  /** Best price first. */
  ghost predicate Ranked(side: Side, s: seq<Rest>) {
    forall i, j | 0 <= i < j < |s| :: !Better(side, s[j].price, s[i].price)
  }

  function Qty(s: seq<Rest>): nat {
    if s == [] then 0 else s[0].qty + Qty(s[1..])
  }

  function FilledQty(f: seq<Fill>): nat {
    if f == [] then 0 else f[0].qty + FilledQty(f[1..])
  }

  // ----- matching

  datatype Matched = Matched(fills: seq<Fill>, rest: seq<Rest>, left: nat)

  /** Consumes the queue from the front while the front crosses the limit and quantity is left. */
  function Match(opp: Side, s: seq<Rest>, limit: int, q: nat): Matched {
    if q == 0 || s == [] || !Crosses(opp, limit, s[0].price) then Matched([], s, q)
    else if q < s[0].qty then
      Matched([Fill(s[0].id, s[0].price, q)], [s[0].(qty := s[0].qty - q)] + s[1..], 0)
    else
      var m := Match(opp, s[1..], limit, q - s[0].qty);
      Matched([Fill(s[0].id, s[0].price, s[0].qty)] + m.fills, m.rest, m.left)
  }

  /** The place of a new order: behind everything that is at least as good. */
  function Enter(side: Side, s: seq<Rest>, r: Rest): seq<Rest> {
    if s == [] || Better(side, r.price, s[0].price) then [r] + s else [s[0]] + Enter(side, s[1..], r)
  }

  /** The sequence without the order of that id; the others keep their places. */
  function Without(s: seq<Rest>, id: nat): seq<Rest> {
    if s == [] then [] else (if s[0].id == id then [] else [s[0]]) + Without(s[1..], id)
  }

  // ----- best-first flattening of price levels

  /** Level m[p] holds orders of price p. */
  type Levels = map<int, seq<Rest>>

  ghost predicate IsBest(side: Side, keys: set<int>, b: int) {
    b in keys && forall p | p in keys :: p == b || Better(side, b, p)
  }

  lemma {:induction false} BestExists(side: Side, keys: set<int>)
    requires keys != {}
    ensures exists b :: IsBest(side, keys, b)
    decreases |keys|
  {
    var k := Member(keys);
    if keys == {k} {
      assert IsBest(side, keys, k);
    } else {
      BestExists(side, keys - {k});
      var b :| IsBest(side, keys - {k}, b);
      assert forall p | p in keys :: p == k || p in keys - {k};
      assert IsBest(side, keys, if Better(side, k, b) then k else b);
    }
  }

  ghost function Best(side: Side, keys: set<int>): (b: int)
    requires keys != {}
    ensures IsBest(side, keys, b)
  {
    BestExists(side, keys);
    var b :| IsBest(side, keys, b);
    b
  }

  /** The orders of all levels, best level first, each level in queue order. */
  ghost function Flat(side: Side, m: Levels): seq<Rest>
    decreases |m|
  {
    if m == map[] then [] else
      var b := Best(side, m.Keys);
      m[b] + Flat(side, m - {b})
  }

  lemma BestUnique(side: Side, keys: set<int>, b: int)
    requires IsBest(side, keys, b)
    ensures Best(side, keys) == b
  {
  }

  /** The best level comes first. */
  lemma FlatBest(side: Side, m: Levels, b: int)
    requires IsBest(side, m.Keys, b)
    ensures Flat(side, m) == m[b] + Flat(side, m - {b})
  {
    BestUnique(side, m.Keys, b);
    assert b in m;
  }

  // ----- one level inside the flattening

  /** The levels that match before, and after, price p. */
  ghost function Ahead(side: Side, m: Levels, p: int): Levels {
    map q | q in m && Better(side, q, p) :: m[q]
  }

  ghost function Behind(side: Side, m: Levels, p: int): Levels {
    map q | q in m && Better(side, p, q) :: m[q]
  }

  lemma SplitBest(side: Side, m: Levels, p: int, b: int)
    requires p in m && IsBest(side, m.Keys, b)
    ensures b == p ==> Ahead(side, m, p) == map[] && Behind(side, m, p) == m - {p}
    ensures b != p ==> IsBest(side, Ahead(side, m, p).Keys, b) && Ahead(side, m, p)[b] == m[b]
    ensures b != p ==> Ahead(side, m - {b}, p) == Ahead(side, m, p) - {b}
    ensures b != p ==> Behind(side, m - {b}, p) == Behind(side, m, p)
  {
  }

  /** The orders of one level stand together, between those of the better and of the worse levels. */
  lemma {:induction false} FlatSplit(side: Side, m: Levels, p: int)
    requires p in m
    ensures Flat(side, m) == Flat(side, Ahead(side, m, p)) + m[p] + Flat(side, Behind(side, m, p))
    decreases |m|
  {
    var b := Best(side, m.Keys);
    SplitBest(side, m, p, b);
    hide Ahead; hide Behind; hide Best; hide IsBest;
    if b != p {
      FlatSplit(side, m - {b}, p);
      FlatBest(side, Ahead(side, m, p), b);
    }
  }

  /** Replacing the queue of one level replaces that stretch and nothing else. */
  lemma FlatUpdate(side: Side, m: Levels, p: int, x: seq<Rest>)
    requires p in m
    ensures var a, b := Flat(side, Ahead(side, m, p)), Flat(side, Behind(side, m, p));
      Flat(side, m) == a + m[p] + b && Flat(side, m[p := x]) == a + x + b
  {
    FlatSplit(side, m, p);
    FlatSplit(side, m[p := x], p);
    assert Ahead(side, m[p := x], p) == Ahead(side, m, p);
    assert Behind(side, m[p := x], p) == Behind(side, m, p);
  }

  lemma BestWith(side: Side, keys: set<int>, b: int, p: int)
    requires IsBest(side, keys, b) && p !in keys
    ensures IsBest(side, keys + {p}, if Better(side, b, p) then b else p)
  {
  }

  /** A level without orders contributes nothing. */
  lemma FlatOpen(side: Side, m: Levels, p: int)
    requires p !in m
    ensures Flat(side, m[p := []]) == Flat(side, m)
    decreases |m|
  {
    var m' := m[p := []];
    assert m'.Keys == m.Keys + {p};
    if m == map[] {
      assert m' - {p} == map[];
      FlatBest(side, m', p);
    } else {
      var b := Best(side, m.Keys);
      BestWith(side, m.Keys, b, p);
      hide IsBest;
      if Better(side, b, p) {
        FlatBest(side, m', b);
        FlatBest(side, m, b);
        FlatOpen(side, m - {b}, p);
        assert m' - {b} == (m - {b})[p := []];
      } else {
        FlatBest(side, m', p);
        assert m' - {p} == m;
      }
    }
  }

  lemma FlatDropEmpty(side: Side, m: Levels, p: int)
    requires p in m && m[p] == []
    ensures Flat(side, m - {p}) == Flat(side, m)
  {
    FlatOpen(side, m - {p}, p);
    assert (m - {p})[p := []] == m;
  }

  ghost predicate AllAt(s: seq<Rest>, p: int) {
    forall i | 0 <= i < |s| :: s[i].price == p
  }

  ghost predicate Priced(m: Levels) {
    forall p | p in m :: AllAt(m[p], p)
  }

  /** Every order of the flattening comes from a level. */
  lemma {:induction false} FlatMember(side: Side, m: Levels, i: nat) returns (p: int, k: nat)
    requires i < |Flat(side, m)|
    ensures p in m && k < |m[p]| && Flat(side, m)[i] == m[p][k]
    decreases |m|
  {
    var b := Best(side, m.Keys);
    if i < |m[b]| {
      p, k := b, i;
    } else {
      p, k := FlatMember(side, m - {b}, i - |m[b]|);
    }
  }

  // ----- entering and leaving a level

  lemma {:induction false} EnterBetween(side: Side, a: seq<Rest>, b: seq<Rest>, r: Rest)
    requires forall i | 0 <= i < |a| :: !Better(side, r.price, a[i].price)
    requires b != [] ==> Better(side, r.price, b[0].price)
    ensures Enter(side, a + b, r) == a + [r] + b
  {
    if a == [] {
      assert a + b == b;
    } else {
      EnterBetween(side, a[1..], b, r);
      assert (a + b)[1..] == a[1..] + b;
    }
  }

  /** Appending to the queue of a level is entering the side behind everything at least as good. */
  lemma FlatEnter(side: Side, m: Levels, r: Rest)
    requires Priced(m) && r.price in m
    ensures Flat(side, m[r.price := m[r.price] + [r]]) == Enter(side, Flat(side, m), r)
  {
    var p := r.price;
    FlatUpdate(side, m, p, m[p] + [r]);
    var a, b := Flat(side, Ahead(side, m, p)), Flat(side, Behind(side, m, p));
    forall i | 0 <= i < |a|
      ensures Better(side, a[i].price, p)
    {
      var q, k := FlatMember(side, Ahead(side, m, p), i);
      assert AllAt(m[q], q);
    }
    if b != [] {
      var q, k := FlatMember(side, Behind(side, m, p), 0);
      assert AllAt(m[q], q);
    }
    assert AllAt(m[p], p);
    EnterBetween(side, a + m[p], b, r);
    assert a + (m[p] + [r]) + b == a + m[p] + [r] + b;
  }

  ghost predicate NoId(s: seq<Rest>, id: nat) {
    forall i | 0 <= i < |s| :: s[i].id != id
  }

  lemma {:induction false} WithoutAbsent(s: seq<Rest>, id: nat)
    requires NoId(s, id)
    ensures Without(s, id) == s
  {
    if s != [] {
      WithoutAbsent(s[1..], id);
    }
  }

  lemma {:induction false} WithoutOnly(a: seq<Rest>, x: Rest, b: seq<Rest>)
    requires NoId(a, x.id) && NoId(b, x.id)
    ensures Without(a + [x] + b, x.id) == a + b
  {
    var s := a + [x] + b;
    if a == [] {
      assert s[1..] == b;
      WithoutAbsent(b, x.id);
    } else {
      assert s[1..] == a[1..] + [x] + b;
      WithoutOnly(a[1..], x, b);
      assert s[0] == a[0];
    }
  }

  /** id occurs in the levels at place k of level p and nowhere else. */
  ghost predicate OnlyAt(m: Levels, id: nat, p: int, k: nat) {
    && p in m && k < |m[p]| && m[p][k].id == id
    && (forall q | q in m && q != p :: NoId(m[q], id))
    && NoId(m[p][..k], id) && NoId(m[p][k + 1..], id)
  }

  lemma FlatNoId(side: Side, m: Levels, id: nat)
    requires forall q | q in m :: NoId(m[q], id)
    ensures NoId(Flat(side, m), id)
  {
    forall i | 0 <= i < |Flat(side, m)|
      ensures Flat(side, m)[i].id != id
    {
      var q, k := FlatMember(side, m, i);
      assert NoId(m[q], id);
    }
  }

  /** Taking an order out of its level takes it out of the side; the others keep their places. */
  lemma FlatWithout(side: Side, m: Levels, id: nat, p: int, k: nat)
    requires OnlyAt(m, id, p, k)
    ensures Flat(side, m[p := RemoveAt(m[p], k)]) == Without(Flat(side, m), id)
  {
    AheadBehindNoId(side, m, id, p, k);
    hide Flat; hide Ahead; hide Behind; hide Without;
    var x := m[p];
    FlatUpdate(side, m, p, RemoveAt(x, k));
    var a, b := Flat(side, Ahead(side, m, p)), Flat(side, Behind(side, m, p));
    FlatNoId(side, Ahead(side, m, p), id);
    FlatNoId(side, Behind(side, m, p), id);
    WithoutMiddle(a, x, b, k);
  }

  lemma AheadBehindNoId(side: Side, m: Levels, id: nat, p: int, k: nat)
    requires OnlyAt(m, id, p, k)
    ensures forall q | q in Ahead(side, m, p) :: NoId(Ahead(side, m, p)[q], id)
    ensures forall q | q in Behind(side, m, p) :: NoId(Behind(side, m, p)[q], id)
  {
    hide NoId;
  }

  lemma WithoutMiddle(a: seq<Rest>, x: seq<Rest>, b: seq<Rest>, k: nat)
    requires k < |x| && NoId(a, x[k].id) && NoId(b, x[k].id) && NoId(x[..k], x[k].id) && NoId(x[k + 1..], x[k].id)
    ensures a + RemoveAt(x, k) + b == Without(a + x + b, x[k].id)
  {
    hide Without;
    assert a + x + b == (a + x[..k]) + [x[k]] + (x[k + 1..] + b);
    WithoutOnly(a + x[..k], x[k], x[k + 1..] + b);
    assert a + x[..k] + (x[k + 1..] + b) == a + RemoveAt(x, k) + b;
  }

  // ----- sizes

  lemma {:induction false} QtyConcat(a: seq<Rest>, b: seq<Rest>)
    ensures Qty(a + b) == Qty(a) + Qty(b)
  {
    if a == [] {
      assert a + b == b;
    } else {
      QtyConcat(a[1..], b);
      assert (a + b)[1..] == a[1..] + b;
    }
  }

  lemma FlatSizes(side: Side, m: Levels, p: int, x: seq<Rest>)
    requires p in m
    ensures |Flat(side, m[p := x])| == |Flat(side, m)| - |m[p]| + |x|
    ensures Qty(Flat(side, m[p := x])) == Qty(Flat(side, m)) - Qty(m[p]) + Qty(x)
  {
    FlatUpdate(side, m, p, x);
    var a, b := Flat(side, Ahead(side, m, p)), Flat(side, Behind(side, m, p));
    hide Flat; hide Ahead; hide Behind; hide Qty;
    QtyConcat(a + m[p], b);
    QtyConcat(a, m[p]);
    QtyConcat(a + x, b);
    QtyConcat(a, x);
  }

  function Prices(s: seq<Rest>): set<int> {
    set i | 0 <= i < |s| :: s[i].price
  }

  /** The prices present are the levels, when no level is empty. */
  lemma FlatLevels(side: Side, m: Levels)
    requires Priced(m) && forall p | p in m :: m[p] != []
    ensures Prices(Flat(side, m)) == m.Keys
  {
    var s := Flat(side, m);
    forall i | 0 <= i < |s|
      ensures s[i].price in m.Keys
    {
      var p, k := FlatMember(side, m, i);
      assert AllAt(m[p], p);
    }
    forall p | p in m.Keys
      ensures p in Prices(s)
    {
      FlatSplit(side, m, p);
      assert AllAt(m[p], p);
      assert s[|Flat(side, Ahead(side, m, p))|] == m[p][0];
    }
  }

  // ----- the price ladder

  /** One price and the quantity that rests at it. */
  datatype Rung = Rung(price: int, qty: int)

  /** The prices of a side from the front on, each with its whole quantity. */
  function Ladder(s: seq<Rest>): seq<Rung> {
    if s == [] then []
    else
      var l := Ladder(s[1..]);
      if l != [] && l[0].price == s[0].price then [Rung(s[0].price, s[0].qty + l[0].qty)] + l[1..]
      else [Rung(s[0].price, s[0].qty)] + l
  }

  lemma LadderFront(s: seq<Rest>)
    ensures if s == [] then Ladder(s) == [] else Ladder(s) != [] && Ladder(s)[0].price == s[0].price
  {
  }

  lemma {:induction false} LadderLevel(x: seq<Rest>, rest: seq<Rest>, p: int)
    requires AllAt(x, p) && x != [] && (rest != [] ==> rest[0].price != p)
    ensures Ladder(x + rest) == [Rung(p, Qty(x))] + Ladder(rest)
  {
    LadderFront(rest);
    assert (x + rest)[1..] == x[1..] + rest;
    if |x| == 1 {
      assert x[1..] + rest == rest;
    } else {
      LadderLevel(x[1..], rest, p);
    }
  }

  ghost predicate BestFirst(side: Side, l: seq<Rung>) {
    forall i, j | 0 <= i < j < |l| :: Better(side, l[i].price, l[j].price)
  }

  /** The rungs are the levels, each with the quantity of its orders. */
  ghost predicate RungsOf(l: seq<Rung>, m: Levels) {
    && (forall i | 0 <= i < |l| :: l[i].price in m && l[i].qty == Qty(m[l[i].price]))
    && (forall p | p in m :: exists i :: 0 <= i < |l| && l[i].price == p)
  }

  /** Levels listed best first are the ladder of their flattening. */
  lemma {:induction false} LadderOf(side: Side, l: seq<Rung>, m: Levels)
    requires BestFirst(side, l) && RungsOf(l, m) && Priced(m) && forall p | p in m :: m[p] != []
    ensures Ladder(Flat(side, m)) == l
    decreases |l|
  {
    if l == [] {
      NoRungs(l, m);
    } else {
      var b := l[0].price;
      FrontIsBest(side, l, m);
      var m', l' := m - {b}, l[1..];
      RestOfRungs(side, l, m);
      LadderOf(side, l', m');
      var rest := Flat(side, m');
      if rest != [] {
        var p, k := FlatMember(side, m', 0);
        assert AllAt(m'[p], p);
      }
      assert AllAt(m[b], b);
      LadderLevel(m[b], rest, b);
      FlatBest(side, m, b);
    }
  }

  lemma NoRungs(l: seq<Rung>, m: Levels)
    requires RungsOf(l, m) && l == []
    ensures m == map[]
  {
    forall p: int
      ensures p !in m
    {
      RungAt(l, m, p);
    }
  }

  lemma RungAt(l: seq<Rung>, m: Levels, p: int)
    requires RungsOf(l, m)
    ensures p in m ==> exists i :: 0 <= i < |l| && l[i].price == p
  {
  }

  lemma FrontIsBest(side: Side, l: seq<Rung>, m: Levels)
    requires BestFirst(side, l) && RungsOf(l, m) && l != []
    ensures IsBest(side, m.Keys, l[0].price)
  {
  }

  lemma RestOfRungs(side: Side, l: seq<Rung>, m: Levels)
    requires BestFirst(side, l) && RungsOf(l, m) && l != []
    ensures BestFirst(side, l[1..]) && RungsOf(l[1..], m - {l[0].price})
  {
    var l', m' := l[1..], m - {l[0].price};
    forall p | p in m'
      ensures exists i :: 0 <= i < |l'| && l'[i].price == p
    {
      var i :| 0 <= i < |l| && l[i].price == p;
      assert l'[i - 1].price == p;
    }
  }

  // ----- the fill loop as a run of Match

  /** Having made the fills `done`, what is left to match is (s, q). */
  ghost predicate Progress(opp: Side, limit: int, s0: seq<Rest>, q0: nat, done: seq<Fill>, s: seq<Rest>, q: nat) {
    var m0, m := Match(opp, s0, limit, q0), Match(opp, s, limit, q);
    m0.fills == done + m.fills && m0.rest == m.rest && m0.left == m.left
  }

  lemma ProgressStart(opp: Side, limit: int, s0: seq<Rest>, q0: nat)
    ensures Progress(opp, limit, s0, q0, [], s0, q0)
  {
  }

  lemma ProgressEnd(opp: Side, limit: int, s0: seq<Rest>, q0: nat, done: seq<Fill>, s: seq<Rest>, q: nat)
    requires Progress(opp, limit, s0, q0, done, s, q)
    requires q == 0 || s == [] || !Crosses(opp, limit, s[0].price)
    ensures Match(opp, s0, limit, q0) == Matched(done, s, q)
  {
    assert done + [] == done;
  }

  /** The front order has more than is needed. */
  lemma ProgressPart(opp: Side, limit: int, s0: seq<Rest>, q0: nat, done: seq<Fill>, s: seq<Rest>, q: nat)
    requires Progress(opp, limit, s0, q0, done, s, q)
    requires s != [] && 0 < q < s[0].qty && Crosses(opp, limit, s[0].price)
    ensures Progress(opp, limit, s0, q0, done + [Fill(s[0].id, s[0].price, q)],
                     [s[0].(qty := s[0].qty - q)] + s[1..], 0)
  {
    var f := [Fill(s[0].id, s[0].price, q)];
    assert done + f == done + f + [];
  }

  /** The front order is used up. */
  lemma ProgressWhole(opp: Side, limit: int, s0: seq<Rest>, q0: nat, done: seq<Fill>, s: seq<Rest>, q: nat)
    requires Progress(opp, limit, s0, q0, done, s, q)
    requires s != [] && 0 < q && s[0].qty <= q && Crosses(opp, limit, s[0].price)
    ensures Progress(opp, limit, s0, q0, done + [Fill(s[0].id, s[0].price, s[0].qty)], s[1..], q - s[0].qty)
  {
    var f, m := [Fill(s[0].id, s[0].price, s[0].qty)], Match(opp, s[1..], limit, q - s[0].qty);
    assert done + (f + m.fills) == done + f + m.fills;
  }
}
