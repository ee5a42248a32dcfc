/** What a caller of the book can count on, stated over the two sides and the numbers of the call alone. */
module BookAnswers {
  import opened Types
  import opened PriceTime
  import opened BookSpec
  import opened BookLaws
  import opened MatchLaws

  /** t is s with r behind everything at least as good and before everything worse; k is its place. */
  ghost predicate StandsAt(side: Side, s: seq<Rest>, k: nat, r: Rest, t: seq<Rest>) {
    && k <= |s| && t == s[..k] + [r] + s[k..]
    && (forall i | 0 <= i < k :: if side == Bid then s[i].price >= r.price else s[i].price <= r.price)
    && (forall i | k <= i < |s| :: if side == Bid then s[i].price < r.price else s[i].price > r.price)
  }

  lemma EnterStands(side: Side, s: seq<Rest>, r: Rest) returns (k: nat)
    requires Ranked(side, s)
    ensures StandsAt(side, s, k, r, Enter(side, s, r))
  {
    k := EnterAt(side, s, r);
    hide Enter;
    if k < |s| {
      assert forall i | k < i < |s| :: !Better(side, s[i].price, s[k].price);
    }
  }

  /** No level of the side has that price, and none can be added. */
  ghost predicate Full(s: seq<Rest>, price: int) {
    (forall i | 0 <= i < |s| :: s[i].price != price) && |Prices(s)| >= 256
  }

  /** What a new order takes from the other side, and what then becomes of its remainder. */
  ghost predicate Answered(b: Lob, side: Side, price: int, qty: nat, expiry: nat, a: Added, k: nat) {
    var own, other := b.sides.Get(side), b.sides.Get(side.Opposite());
    var filled, within := FilledQty(a.fills), CrossQty(side.Opposite(), other, price);
    && a.id == b.nextId && a.lob.nextId == b.nextId + 1
    && filled == (if qty <= within then qty else within)
    && TakesFront(side.Opposite(), other, price, Matched(a.fills, a.lob.sides.Get(side.Opposite()), qty - filled))
    && (forall i | 0 <= i < |a.fills| :: if side == Bid then a.fills[i].price <= price else a.fills[i].price >= price)
    && if filled == qty then a.status == Filled && a.lob.sides.Get(side) == own
       else if Full(own, price) then a.status == Rejected && a.lob.sides.Get(side) == own
       else
         && a.status == (if a.fills == [] then Accepted else Partial)
         && StandsAt(side, own, k, Rest(b.nextId, price, qty - filled, qty, expiry), a.lob.sides.Get(side))
  }

  /** The whole answer to a new order: price, place and quantity of a remainder included. */
  lemma AddAnswers(b: Lob, side: Side, price: int, qty: nat, expiry: nat) returns (k: nat)
    requires WellFormed(b)
    ensures var a := Add(b, side, price, qty, expiry);
      if price <= 0 || qty == 0 || |b.sides.bid| + |b.sides.ask| >= 4096 then a == Added(b, Rejected, 0, [])
      else Answered(b, side, price, qty, expiry, a, k)
  {
    var opp, own, other := side.Opposite(), b.sides.Get(side), b.sides.Get(side.Opposite());
    PairIsBook(b, side);
    PositiveSide(opp, other, b.nextId);
    PositiveSide(side, own, b.nextId);
    hide WellFormed; hide SideOk; hide Match; hide Enter; hide Ranked; hide FilledQty; hide CrossQty; hide StandsAt;
    hide TakesFront; hide Full; hide HasRoom;
    var m := Match(opp, other, price, qty);
    MatchConserves(opp, other, price, qty);
    MatchTakesAll(opp, other, price, qty);
    MatchIsPrefix(opp, other, price, qty);
    FillsWithin(side, other, price, m);
    RoomIs(own, price);
    k := EnterStands(side, own, Rest(b.nextId, price, m.left, qty, expiry));
    hide Answered;
    if price > 0 && qty > 0 && Count(b) < MAX_ORDERS {
      AnsweredIs(b, side, price, qty, expiry, m, k);
    }
  }

  lemma AnsweredIs(b: Lob, side: Side, price: int, qty: nat, expiry: nat, m: Matched, k: nat)
    requires price > 0 && qty > 0 && Count(b) < MAX_ORDERS
    requires m == Match(side.Opposite(), b.sides.Get(side.Opposite()), price, qty) && FilledQty(m.fills) + m.left == qty
    requires var c := CrossQty(side.Opposite(), b.sides.Get(side.Opposite()), price);
      m.left == if c >= qty then 0 else qty - c
    requires TakesFront(side.Opposite(), b.sides.Get(side.Opposite()), price, m)
    requires forall i | 0 <= i < |m.fills| :: if side == Bid then m.fills[i].price <= price else m.fills[i].price >= price
    requires HasRoom(b.sides.Get(side), price) <==> !Full(b.sides.Get(side), price)
    requires var r := Rest(b.nextId, price, m.left, qty, expiry);
      StandsAt(side, b.sides.Get(side), k, r, Enter(side, b.sides.Get(side), r))
    ensures Answered(b, side, price, qty, expiry, Add(b, side, price, qty, expiry), k)
  {
    hide Match; hide Enter; hide FilledQty; hide CrossQty; hide StandsAt; hide TakesFront; hide Full; hide HasRoom;
    assert m == Matched(m.fills, m.rest, qty - FilledQty(m.fills));
  }

  /** Nothing is bought above the limit, nor sold below it. */
  lemma FillsWithin(side: Side, other: seq<Rest>, price: int, m: Matched)
    requires TakesFront(side.Opposite(), other, price, m)
    ensures forall i | 0 <= i < |m.fills| :: if side == Bid then m.fills[i].price <= price else m.fills[i].price >= price
  {
  }

  lemma RoomIs(s: seq<Rest>, price: int)
    ensures HasRoom(s, price) <==> !Full(s, price)
  {
  }

  lemma StandsHas(side: Side, s: seq<Rest>, k: nat, r: Rest, t: seq<Rest>)
    requires StandsAt(side, s, k, r, t) && NoId(s, r.id)
    ensures HasId(t, r.id) && Find(t, r.id) == r
  {
    assert t[k] == r;
    FindAt(t, r.id, k);
  }

  lemma {:induction false} FindAt(s: seq<Rest>, id: nat, k: nat)
    requires k < |s| && s[k].id == id && forall i | 0 <= i < k :: s[i].id != id
    ensures HasId(s, id) && Find(s, id) == s[k]
  {
    if k > 0 {
      FindAt(s[1..], id, k - 1);
    }
  }

  /** The record under which a remainder rests. */
  lemma AddRests(b: Lob, side: Side, price: int, qty: nat, expiry: nat)
    requires WellFormed(b) && Add(b, side, price, qty, expiry).status in {Accepted, Partial}
    ensures var a := Add(b, side, price, qty, expiry);
      && FilledQty(a.fills) < qty
      && HasId(a.lob.sides.Get(side), a.id)
      && Find(a.lob.sides.Get(side), a.id) == Rest(a.id, price, qty - FilledQty(a.fills), qty, expiry)
  {
    var k := AddAnswers(b, side, price, qty, expiry);
    var a, own := Add(b, side, price, qty, expiry), b.sides.Get(side);
    NewIdFresh(Bid, b.sides.bid, b.nextId);
    NewIdFresh(Ask, b.sides.ask, b.nextId);
    hide Add; hide WellFormed; hide StandsAt; hide TakesFront; hide HasId; hide Find; hide NoId; hide CrossQty;
    StandsHas(side, own, k, Rest(b.nextId, price, qty - FilledQty(a.fills), qty, expiry), a.lob.sides.Get(side));
  }

  /** The side and the place of a live order. */
  ghost predicate RestsAt(b: Lob, side: Side, j: nat, id: nat) {
    j < |b.sides.Get(side)| && b.sides.Get(side)[j].id == id
  }

  lemma LiveRests(b: Lob, id: nat) returns (side: Side, j: nat)
    requires WellFormed(b)
    ensures Live(b, id) <==> RestsAt(b, side, j, id)
    ensures Live(b, id) ==>
      && side == SideHolding(b, id)
      && Without(b.sides.Get(side), id) == b.sides.Get(side)[..j] + b.sides.Get(side)[j + 1..]
      && HasId(b.sides.Get(side), id) && Find(b.sides.Get(side), id) == b.sides.Get(side)[j]
  {
    side, j := SideHolding(b, id), |b.sides.Get(SideHolding(b, id))|;
    if Live(b, id) {
      HoldingSide(b, id);
      PairIsBook(b, side);
      PositiveSide(side, b.sides.Get(side), b.nextId);
      j := WithoutAt(b.sides.Get(side), id);
      FindAt(b.sides.Get(side), id, j);
    }
  }

  /** The whole answer to a cancellation. */
  lemma CancelAnswers(b: Lob, id: nat) returns (side: Side, j: nat)
    requires WellFormed(b)
    ensures var (b', status) := Cancel(b, id);
      if RestsAt(b, side, j, id) then
        && status == Accepted && b'.nextId == b.nextId
        && b'.sides.Get(side) == b.sides.Get(side)[..j] + b.sides.Get(side)[j + 1..]
        && b'.sides.Get(side.Opposite()) == b.sides.Get(side.Opposite())
      else (b', status) == (b, NotFound) && forall x: Side, i: nat :: !RestsAt(b, x, i, id)
  {
    side, j := LiveRests(b, id);
    hide WellFormed; hide Without;
    if !Live(b, id) {
      NotLive(b, id);
    }
  }

  lemma NotLive(b: Lob, id: nat)
    requires !Live(b, id)
    ensures forall x: Side, i: nat :: !RestsAt(b, x, i, id)
  {
  }

  /** The whole answer to an amendment: only price and quantity of the order change, and its place is a new one. */
  lemma ModifyAnswers(b: Lob, id: nat, price: int, qty: nat) returns (side: Side, j: nat, k: nat)
    requires WellFormed(b)
    ensures var (b', status) := Modify(b, id, price, qty);
      if price <= 0 || qty == 0 then (b', status) == (b, Rejected)
      else if !RestsAt(b, side, j, id) then (b', status) == (b, NotFound) && forall x: Side, i: nat :: !RestsAt(b, x, i, id)
      else
        var own := b.sides.Get(side);
        var t := own[..j] + own[j + 1..];
        && b'.nextId == b.nextId && b'.sides.Get(side.Opposite()) == b.sides.Get(side.Opposite())
        && if Full(t, price) then status == Rejected && b'.sides.Get(side) == t
           else
             status == Accepted
             && StandsAt(side, t, k, Rest(id, price, qty, own[j].original, own[j].expiry), b'.sides.Get(side))
  {
    side, j := LiveRests(b, id);
    k := 0;
    if !Live(b, id) {
      NotLive(b, id);
    } else if price > 0 && qty > 0 {
      var own := b.sides.Get(side);
      var t := own[..j] + own[j + 1..];
      ModifySides(b, id, price, qty);
      PairIsBook(b, side);
      PositiveSide(side, own, b.nextId);
      RemovedRanked(side, own, j);
      hide WellFormed; hide SideOk; hide Without; hide Ranked; hide Enter; hide StandsAt; hide Modify; hide HasId;
      hide Find; hide Live; hide SideHolding;
      RoomIs(t, price);
      k := EnterStands(side, t, own[j].(price := price, qty := qty));
      ModifyIds(b, id, price, qty);
    }
  }

  lemma ModifyIds(b: Lob, id: nat, price: int, qty: nat)
    ensures var (b', status) := Modify(b, id, price, qty);
      b'.nextId == b.nextId && (price > 0 && qty > 0 && Live(b, id) ==> status in {Accepted, Rejected})
  {
  }

  // ----- depth

  /** The quantity that rests at one price. */
  function QtyAt(s: seq<Rest>, p: int): nat {
    if s == [] then 0 else (if s[0].price == p then s[0].qty else 0) + QtyAt(s[1..], p)
  }

  lemma {:induction false} NoneAt(s: seq<Rest>, p: int)
    requires forall i | 0 <= i < |s| :: s[i].price != p
    ensures QtyAt(s, p) == 0
  {
    if s != [] {
      NoneAt(s[1..], p);
    }
  }

  /** The rungs tell the side: best price first, each price once, each with all that rests at it. */
  ghost predicate Tells(side: Side, l: seq<Rung>, s: seq<Rest>) {
    && (forall i, j | 0 <= i < j < |l| :: if side == Bid then l[i].price > l[j].price else l[i].price < l[j].price)
    && (forall i | 0 <= i < |l| :: l[i].qty == QtyAt(s, l[i].price))
    && RungPrices(l) == Prices(s)
  }

  function RungPrices(l: seq<Rung>): set<int> {
    set i | 0 <= i < |l| :: l[i].price
  }

  lemma ConsRungs(r: Rung, l: seq<Rung>)
    ensures RungPrices([r] + l) == {r.price} + RungPrices(l)
  {
    var t := [r] + l;
    assert t[0] == r;
    forall p | p in RungPrices(l)
      ensures p in RungPrices(t)
    {
      var i :| 0 <= i < |l| && l[i].price == p;
      assert t[i + 1] == l[i];
    }
  }

  lemma FrontPrices(s: seq<Rest>)
    requires s != []
    ensures Prices(s) == {s[0].price} + Prices(s[1..])
  {
    forall p | p in Prices(s[1..])
      ensures p in Prices(s)
    {
      var i :| 0 <= i < |s[1..]| && s[1..][i].price == p;
      assert s[i + 1].price == p;
    }
    forall p | p in Prices(s)
      ensures p in {s[0].price} + Prices(s[1..])
    {
      var i :| 0 <= i < |s| && s[i].price == p;
      assert i > 0 ==> s[1..][i - 1] == s[i];
    }
  }

  lemma {:induction false} LadderTells(side: Side, s: seq<Rest>)
    requires Ranked(side, s)
    ensures Tells(side, Ladder(s), s)
  {
    if s != [] {
      RankedTail(side, s);
      LadderTells(side, s[1..]);
      LadderFront(s[1..]);
      hide Tells;
      var l := Ladder(s[1..]);
      if l != [] && l[0].price == s[0].price {
        RungGrows(side, s, l);
      } else {
        NewRung(side, s, l);
      }
    }
  }

  /** The front order stands at the price of the first rung. */
  lemma RungGrows(side: Side, s: seq<Rest>, l: seq<Rung>)
    requires s != [] && l != [] && l[0].price == s[0].price && Tells(side, l, s[1..])
    ensures Tells(side, [Rung(s[0].price, s[0].qty + l[0].qty)] + l[1..], s)
  {
    var first := Rung(s[0].price, s[0].qty + l[0].qty);
    FrontPrices(s);
    ConsRungs(first, l[1..]);
    ConsRungs(l[0], l[1..]);
    assert [l[0]] + l[1..] == l;
    var l' := [first] + l[1..];
    hide RungPrices; hide Prices;
    assert forall i | 0 <= i < |l| :: l'[i].price == l[i].price && (i > 0 ==> l'[i] == l[i]);
  }

  /** Behind an order at a price of its own everything is worse. */
  lemma AllWorse(side: Side, s: seq<Rest>)
    requires Ranked(side, s) && |s| > 1 && s[0].price != s[1].price
    ensures forall i | 0 < i < |s| :: if side == Bid then s[0].price > s[i].price else s[0].price < s[i].price
  {
    forall i | 0 < i < |s|
      ensures if side == Bid then s[0].price > s[i].price else s[0].price < s[i].price
    {
      assert !Better(side, s[1].price, s[0].price) && (i > 1 ==> !Better(side, s[i].price, s[1].price));
    }
  }

  /** The front order stands at a price of its own. */
  lemma NewRung(side: Side, s: seq<Rest>, l: seq<Rung>)
    requires s != [] && Ranked(side, s) && Tells(side, l, s[1..])
    requires |s| > 1 ==> s[1].price != s[0].price
    ensures Tells(side, [Rung(s[0].price, s[0].qty)] + l, s)
  {
    if |s| > 1 {
      AllWorse(side, s);
    }
    FrontPrices(s);
    ConsRungs(Rung(s[0].price, s[0].qty), l);
    NoneAt(s[1..], s[0].price);
    forall j | 0 <= j < |l|
      ensures if side == Bid then s[0].price > l[j].price else s[0].price < l[j].price
    {
      assert l[j].price in RungPrices(l);
      var i :| 0 <= i < |s[1..]| && s[1..][i].price == l[j].price;
      assert s[1..][i] == s[i + 1];
    }
    hide RungPrices; hide Prices;
    var l' := [Rung(s[0].price, s[0].qty)] + l;
    assert forall i | 0 < i < |l'| :: l'[i] == l[i - 1];
  }
}
