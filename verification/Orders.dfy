/** The fill-or-kill liquidity check of engine/orders.c: a pruned, early-exit walk of one side's price tree. */
module Orders {
  import opened Types
  import opened PriceTime
  import opened AvlTree
  import opened MatchLaws
  import LevelPool
  import BookState
  import Book
  import EngineSpec

  /** Total resting quantity of the levels within the limit. */
  function CrossTotal(opp: Side, s: seq<Item>, limit: int): nat {
    if s == [] then 0 else (if Crosses(opp, limit, s[0].price) then s[0].total else 0) + CrossTotal(opp, s[1..], limit)
  }

  lemma {:induction false} CrossTotalConcat(opp: Side, a: seq<Item>, b: seq<Item>, limit: int)
    ensures CrossTotal(opp, a + b, limit) == CrossTotal(opp, a, limit) + CrossTotal(opp, b, limit)
  {
    if a == [] {
      assert a + b == b;
    } else {
      CrossTotalConcat(opp, a[1..], b, limit);
      assert (a + b)[1..] == a[1..] + b && (a + b)[0] == a[0];
    }
  }

  lemma CrossTotalNode(opp: Side, t: Tree, limit: int)
    requires t.Node?
    ensures CrossTotal(opp, InOrder(t), limit)
         == CrossTotal(opp, InOrder(t.left), limit) + CrossTotal(opp, InOrder(t.right), limit)
            + (if Crosses(opp, limit, t.item.price) then t.item.total else 0)
  {
    CrossTotalConcat(opp, InOrder(t.left) + [t.item], InOrder(t.right), limit);
    CrossTotalConcat(opp, InOrder(t.left), [t.item], limit);
    assert CrossTotal(opp, [t.item], limit) == if Crosses(opp, limit, t.item.price) then t.item.total else 0;
  }

  lemma {:induction false} CrossTotalNone(opp: Side, s: seq<Item>, limit: int)
    requires forall i | 0 <= i < |s| :: !Crosses(opp, limit, s[i].price)
    ensures CrossTotal(opp, s, limit) == 0
  {
    if s != [] {
      CrossTotalNone(opp, s[1..], limit);
    }
  }

  /** The walk stopped early, or it added up everything within the limit. */
  ghost predicate Summed(opp: Side, t: Tree, limit: int, accum: nat, need: nat, accum': nat) {
    var total := CrossTotal(opp, InOrder(t), limit);
    accum <= accum' <= accum + total && (accum' < need ==> accum' == accum + total)
  }

  /** fok_sum_asc: a buyer walks the asks from the lowest price. */
  method FokSumAsc(levels: LevelPool.LevelPool, node: nat, limit: int, accum: nat, need: nat, ghost t: Tree)
    returns (accum': nat)
    requires levels.pool.Length < NIL && LevelPool.Rep(levels.pool[..], node, t) && Bst(t)
    ensures Summed(Ask, t, limit, accum, need, accum')
    decreases t
  {
    accum' := accum;
    if node == NIL || accum >= need {
      return;
    }
    AscendingParts(InOrder(t.left), t.item, InOrder(t.right));
    CrossTotalNode(Ask, t, limit);
    if levels.pool[node].item.price > limit {
      CrossTotalNone(Ask, InOrder(t.right), limit);
      accum' := FokSumAsc(levels, levels.pool[node].left, limit, accum, need, t.left);
      return;
    }
    accum' := FokSumAsc(levels, levels.pool[node].left, limit, accum, need, t.left);
    accum' := accum' + levels.pool[node].item.total;
    if accum' < need {
      accum' := FokSumAsc(levels, levels.pool[node].right, limit, accum', need, t.right);
    }
  }

  /** fok_sum_desc: a seller walks the bids from the highest price. */
  method FokSumDesc(levels: LevelPool.LevelPool, node: nat, limit: int, accum: nat, need: nat, ghost t: Tree)
    returns (accum': nat)
    requires levels.pool.Length < NIL && LevelPool.Rep(levels.pool[..], node, t) && Bst(t)
    ensures Summed(Bid, t, limit, accum, need, accum')
    decreases t
  {
    accum' := accum;
    if node == NIL || accum >= need {
      return;
    }
    AscendingParts(InOrder(t.left), t.item, InOrder(t.right));
    CrossTotalNode(Bid, t, limit);
    if levels.pool[node].item.price < limit {
      CrossTotalNone(Bid, InOrder(t.left), limit);
      accum' := FokSumDesc(levels, levels.pool[node].right, limit, accum, need, t.right);
      return;
    }
    accum' := FokSumDesc(levels, levels.pool[node].right, limit, accum, need, t.right);
    accum' := accum' + levels.pool[node].item.total;
    if accum' < need {
      accum' := FokSumDesc(levels, levels.pool[node].left, limit, accum', need, t.left);
    }
  }

  // ----- from the tree to the sequence of orders

  lemma {:induction false} CrossQtyConcat(opp: Side, a: seq<Rest>, b: seq<Rest>, limit: int)
    ensures CrossQty(opp, a + b, limit) == CrossQty(opp, a, limit) + CrossQty(opp, b, limit)
  {
    if a == [] {
      assert a + b == b;
    } else {
      CrossQtyConcat(opp, a[1..], b, limit);
      assert (a + b)[1..] == a[1..] + b && (a + b)[0] == a[0];
    }
  }

  lemma {:induction false} CrossQtyLevel(opp: Side, s: seq<Rest>, p: int, limit: int)
    requires AllAt(s, p)
    ensures CrossQty(opp, s, limit) == if Crosses(opp, limit, p) then Qty(s) else 0
  {
    if s != [] {
      CrossQtyLevel(opp, s[1..], p, limit);
    }
  }

  /** Taking one level away takes its share away. */
  lemma CrossQtyWithout(opp: Side, v: Levels, p: int, limit: int)
    requires p in v && AllAt(v[p], p)
    ensures CrossQty(opp, Flat(opp, v), limit)
         == CrossQty(opp, Flat(opp, v - {p}), limit) + (if Crosses(opp, limit, p) then Qty(v[p]) else 0)
  {
    FlatUpdate(opp, v, p, []);
    FlatDropEmpty(opp, v[p := []], p);
    assert v[p := []] - {p} == v - {p};
    var a, b := Flat(opp, Ahead(opp, v, p)), Flat(opp, Behind(opp, v, p));
    hide Flat; hide Ahead; hide Behind; hide CrossQty; hide Qty;
    CrossQtyConcat(opp, a + v[p], b, limit);
    CrossQtyConcat(opp, a, v[p], limit);
    CrossQtyConcat(opp, a + [], b, limit);
    assert a + [] == a;
    CrossQtyLevel(opp, v[p], p, limit);
  }

  lemma {:induction false} CrossTotalIsQty(opp: Side, s: seq<Item>, m: map<int, Item>, v: Levels, limit: int)
    requires Represents(m, s) && Ascending(s) && m.Keys == v.Keys && Priced(v)
    requires forall p | p in m :: m[p].total == Qty(v[p])
    ensures CrossTotal(opp, s, limit) == CrossQty(opp, Flat(opp, v), limit)
  {
    if s == [] {
      EmptyMap(m, s);
      assert v == map[];
    } else {
      var p := s[0].price;
      RepresentsRemove(m, s, 0);
      RemoveAtAscending(s, 0);
      assert RemoveAt(s, 0) == s[1..];
      assert s[0].price in m;
      hide Flat; hide Represents; hide Ascending; hide Qty;
      CrossTotalIsQty(opp, s[1..], m - {p}, v - {p}, limit);
      CrossQtyWithout(opp, v, p, limit);
    }
  }

  /** orders_fok_check. */
  method FokCheck(book: Book.Book, side: Side, price: int, qty: nat) returns (ok: bool)
    requires book.Valid()
    ensures ok == EngineSpec.FokFillable(book.Value(), side, price, qty)
  {
    hide BookState.Ok; hide BookState.View; hide LevelPool.LevelPool.Valid; hide Flat; hide BookState.Positive;
    hide Priced; hide Represents; hide Qty; hide CrossQty; hide CrossTotal; hide InOrder; hide LevelPool.Rep;
    var opp := side.Opposite();
    book.levels.TreeIs(opp);
    BookState.OkPriced(book.Snap(), opp, {}, {});
    BookState.TotalsAre(book.Snap(), opp, {}, {});
    ghost var t := book.levels.trees.Get(opp);
    CrossTotalIsQty(opp, InOrder(t), book.levels.items.Get(opp), book.Levels(opp), price);
    var accum;
    if side == Bid {
      accum := FokSumAsc(book.levels, book.levels.roots.ask, price, 0, qty, t);
    } else {
      accum := FokSumDesc(book.levels, book.levels.roots.bid, price, 0, qty, t);
    }
    ok := accum >= qty;
  }
}
