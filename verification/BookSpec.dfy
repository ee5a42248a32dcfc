/** The order book as two price-time sequences: what every operation of engine/orderbook.c amounts to. */
module BookSpec {
  import opened Types
  import opened PriceTime

  /** OB_STATUS_OK, _PARTIAL, _FILLED, _REJECTED and _NOT_FOUND. */
  datatype Status = Accepted | Partial | Filled | Rejected | NotFound

  datatype Lob = Lob(sides: Sided<seq<Rest>>, nextId: nat)

  datatype Added = Added(lob: Lob, status: Status, id: nat, fills: seq<Fill>)

  function Count(b: Lob): nat {
    |b.sides.bid| + |b.sides.ask|
  }

  /** A side takes an order at price p when it holds that price already or has room for another level. */
  predicate HasRoom(s: seq<Rest>, p: int) {
    p in Prices(s) || |Prices(s)| < MAX_LEVELS
  }

  function Add(b: Lob, side: Side, price: int, qty: nat, expiry: nat): Added {
    if price <= 0 || qty == 0 || Count(b) >= MAX_ORDERS then Added(b, Rejected, 0, [])
    else
      var opp, own := side.Opposite(), b.sides.Get(side);
      var m := Match(opp, b.sides.Get(opp), price, qty);
      var b' := Lob(b.sides.With(opp, m.rest), b.nextId + 1);
      if m.left == 0 then Added(b', Filled, b.nextId, m.fills)
      else if !HasRoom(own, price) then Added(b', Rejected, b.nextId, m.fills)
      else
        var r := Rest(b.nextId, price, m.left, qty, expiry);
        Added(b'.(sides := b'.sides.With(side, Enter(side, own, r))),
              if m.fills == [] then Accepted else Partial, b.nextId, m.fills)
  }

  predicate HasId(s: seq<Rest>, id: nat) {
    exists i | 0 <= i < |s| :: s[i].id == id
  }

  function Find(s: seq<Rest>, id: nat): (r: Rest)
    requires HasId(s, id)
    ensures r in s && r.id == id
  {
    if s[0].id == id then s[0] else Find(s[1..], id)
  }

  /** The side on which an id rests, the bid side first. */
  function SideHolding(b: Lob, id: nat): Side {
    if HasId(b.sides.bid, id) then Bid else Ask
  }

  predicate Live(b: Lob, id: nat) {
    HasId(b.sides.bid, id) || HasId(b.sides.ask, id)
  }

  function Cancel(b: Lob, id: nat): (Lob, Status) {
    if !Live(b, id) then (b, NotFound)
    else
      var side := SideHolding(b, id);
      (b.(sides := b.sides.With(side, Without(b.sides.Get(side), id))), Accepted)
  }

  /** The amended order goes behind its peers at the new price; at the level limit it is lost. */
  function Modify(b: Lob, id: nat, price: int, qty: nat): (Lob, Status) {
    if price <= 0 || qty == 0 then (b, Rejected)
    else if !Live(b, id) then (b, NotFound)
    else
      var side := SideHolding(b, id);
      var r, own := Find(b.sides.Get(side), id), Without(b.sides.Get(side), id);
      if !HasRoom(own, price) then (b.(sides := b.sides.With(side, own)), Rejected)
      else (b.(sides := b.sides.With(side, Enter(side, own, r.(price := price, qty := qty)))), Accepted)
  }
}
