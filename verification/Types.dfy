/** Constants and value types of the order book: engine/orderbook.h. */
module Types {
  // OB_NULL_IDX: the index that stands for "no node" in every pool.
  const NIL: nat := 65535
  const MAX_ORDERS: nat := 4096
  const MAX_LEVELS: nat := 256
  const LEVEL_SLOTS: nat := 2 * MAX_LEVELS
  const LOOKUP_CAP: nat := 2 * MAX_ORDERS

  datatype Side = Bid | Ask {
    function Opposite(): Side {
      if this == Bid then Ask else Bid
    }
  }

  /** One value per side of the book. */
  datatype Sided<T> = Sided(bid: T, ask: T) {
    function Get(s: Side): T {
      if s == Bid then bid else ask
    }

    function With(s: Side, v: T): Sided<T> {
      if s == Bid then Sided(v, ask) else Sided(bid, v)
    }
  }

  /** Price p matches before price q: the higher bid, the lower ask. */
  predicate Better(side: Side, p: int, q: int) {
    if side == Bid then p > q else p < q
  }

  function RemoveAt<T>(s: seq<T>, k: nat): seq<T>
    requires k < |s|
  {
    s[..k] + s[k + 1..]
  }

  lemma Member<T>(s: set<T>) returns (x: T)
    requires s != {}
    ensures x in s
  {
    x :| x in s;
  }
}
