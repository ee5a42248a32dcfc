/** The pool of price levels and the AVL routines that relink its slots in place. */
module LevelPool {
  import opened Arith
  import opened Types
  import opened AvlTree
  import FreeStack

  /** One pool slot: the payload, and the links of the tree it currently belongs to. */
  datatype Level = Level(item: Item, left: nat, right: nat, height: int)

  /** The slots reachable from root are linked in the shape of t, with exact heights. */
  ghost predicate Rep(pool: seq<Level>, root: nat, t: Tree)
    decreases t
  {
    match t
    case Leaf => root == NIL
    case Node(l, s, it, r) =>
      && root == s < |pool|
      && pool[s].item == it
      && pool[s].height == Height(t)
      && Rep(pool, pool[s].left, l)
      && Rep(pool, pool[s].right, r)
  }

  /** As Rep, but the height stored at the root itself may be out of date. */
  ghost predicate Linked(pool: seq<Level>, root: nat, t: Tree) {
    && t.Node?
    && root == t.slot < |pool|
    && pool[root].item == t.item
    && Rep(pool, pool[root].left, t.left)
    && Rep(pool, pool[root].right, t.right)
  }

  lemma {:induction false} RepFrame(pool: seq<Level>, pool': seq<Level>, root: nat, t: Tree)
    requires Rep(pool, root, t) && |pool| == |pool'|
    requires forall i | i in Slots(t) && i < |pool| :: pool[i] == pool'[i]
    ensures Rep(pool', root, t)
    decreases t
  {
    if t.Node? {
      RepFrame(pool, pool', pool[root].left, t.left);
      RepFrame(pool, pool', pool[root].right, t.right);
    }
  }

  lemma {:induction false} RepItem(pool: seq<Level>, root: nat, t: Tree, s: nat)
    requires Rep(pool, root, t) && s in Slots(t)
    ensures s < |pool| && pool[s].item == ItemAt(t, s)
    decreases t
  {
    if s != t.slot {
      if s in Slots(t.left) {
        RepItem(pool, pool[root].left, t.left, s);
      } else {
        RepItem(pool, pool[root].right, t.right, s);
      }
    }
  }

  /** Writing one slot outside t does not disturb t. */
  lemma RepUpdate(pool: seq<Level>, i: nat, v: Level, root: nat, t: Tree)
    requires Rep(pool, root, t) && i < |pool| && i !in Slots(t)
    ensures Rep(pool[i := v], root, t)
  {
    RepFrame(pool, pool[i := v], root, t);
  }

  lemma RelinkRight(s: seq<Level>, yi: nat, t: Tree)
    requires |s| <= NIL && Distinct(t) && Linked(s, yi, t) && t.left.Node?
    ensures var x := t.left;
      var xi := s[yi].left;
      && xi < |s|
      && var s' := s[xi := s[xi].(right := yi)];
      && Linked(s'[yi := s'[yi].(left := s[xi].right)], yi, Node(x.right, t.slot, t.item, t.right))
      && Rep(s'[yi := s'[yi].(left := s[xi].right)], s[xi].left, x.left)
  {
    var x, xi := t.left, s[yi].left;
    var s' := s[xi := s[xi].(right := yi)];
    s' := s'[yi := s'[yi].(left := s[xi].right)];
    RepFrame(s, s', s[xi].left, x.left);
    RepFrame(s, s', s[xi].right, x.right);
    RepFrame(s, s', s[yi].right, t.right);
  }

  lemma RelinkLeft(s: seq<Level>, xi: nat, t: Tree)
    requires |s| <= NIL && Distinct(t) && Linked(s, xi, t) && t.right.Node?
    ensures var y := t.right;
      var yi := s[xi].right;
      && yi < |s|
      && var s' := s[yi := s[yi].(left := xi)];
      && Linked(s'[xi := s'[xi].(right := s[yi].left)], xi, Node(t.left, t.slot, t.item, y.left))
      && Rep(s'[xi := s'[xi].(right := s[yi].left)], s[yi].right, y.right)
  {
    var y, yi := t.right, s[xi].right;
    var s' := s[yi := s[yi].(left := xi)];
    s' := s'[xi := s'[xi].(right := s[yi].left)];
    RepFrame(s, s', s[yi].right, y.right);
    RepFrame(s, s', s[yi].left, y.left);
    RepFrame(s, s', s[xi].left, t.left);
  }

  lemma DistinctNode(t: Tree)
    requires Distinct(t) && t.Node?
    ensures t.slot !in Slots(t.left) && t.slot !in Slots(t.right) && Slots(t.left) !! Slots(t.right)
  {
  }

  /** A represented tree, one node down. */
  lemma AtNode(pool: seq<Level>, root: nat, t: Tree)
    requires Rep(pool, root, t) && Distinct(t) && t.Node?
    ensures Linked(pool, root, t) && root == t.slot < |pool| && pool[root].item == t.item
    ensures Rep(pool, pool[root].left, t.left) && Rep(pool, pool[root].right, t.right)
    ensures Distinct(t.left) && Distinct(t.right)
    ensures root !in Slots(t.left) && root !in Slots(t.right) && Slots(t.left) !! Slots(t.right)
    ensures Slots(t) == Slots(t.left) + {root} + Slots(t.right)
  {
  }

  lemma BstNode(t: Tree)
    requires Bst(t) && Balanced(t) && t.Node?
    ensures Bst(t.left) && Bst(t.right) && Balanced(t.left) && Balanced(t.right)
  {
    ChildrenBst(t);
  }

  lemma RootIsNil(pool: seq<Level>, root: nat, t: Tree)
    requires Rep(pool, root, t) && |pool| <= NIL
    ensures root == NIL <==> t.Leaf?
  {
  }

  lemma RemoveNothing(t: Tree, p: int)
    requires t.Leaf?
    ensures AvlTree.Remove(t, p) == t && Freed(t, p) == []
  {
  }

  /** A node with a child missing gives way to the other child. */
  lemma RemoveSpliced(t: Tree, p: int)
    requires t.Node? && p == t.item.price && (t.left.Leaf? || t.right.Leaf?)
    ensures AvlTree.Remove(t, p) == if t.left.Node? then t.left else t.right
    ensures Freed(t, p) == [t.slot]
  {
  }

  /** Any other removal rebalances the tree that has one child rebuilt. */
  lemma RemoveRebuilt(t: Tree, p: int)
    requires t.Node? && (p == t.item.price ==> t.left.Node? && t.right.Node?)
    ensures Shrunk(t, p).Node? && AvlTree.Remove(t, p) == AvlTree.FixRemove(Shrunk(t, p))
  {
    hide AvlTree.FixRemove;
  }

  lemma RemoveThins(t: Tree, p: int)
    requires Bst(t) && Distinct(t)
    ensures Distinct(AvlTree.Remove(t, p)) && Slots(AvlTree.Remove(t, p)) <= Slots(t)
  {
    RemoveSlots(t, p);
  }

  /** Off the root's price, what a removal gives back it gives back from below. */
  lemma FreedBelow(t: Tree, p: int)
    requires t.Node?
    ensures p < t.item.price ==> Freed(t, p) == Freed(t.left, p)
    ensures p > t.item.price ==> Freed(t, p) == Freed(t.right, p)
  {
  }

  /** A new payload in the root. */
  lemma Payload(pool: seq<Level>, root: nat, t: Tree, item: Item)
    requires Rep(pool, root, t) && Distinct(t) && t.Node?
    ensures var t1 := t.(item := item);
      root < |pool| && Distinct(t1) && Slots(t1) == Slots(t) && Linked(pool[root := pool[root].(item := item)], root, t1)
  {
    var pool1 := pool[root := pool[root].(item := item)];
    RepFrame(pool, pool1, pool[root].left, t.left);
    RepFrame(pool, pool1, pool[root].right, t.right);
  }

  /** A left subtree rebuilt from its own slots and some that are not in the tree. */
  lemma NodeLeft(t: Tree, l: Tree, extra: set<nat>)
    requires t.Node? && Distinct(t) && Distinct(l) && Slots(l) <= Slots(t.left) + extra && extra !! Slots(t)
    ensures Distinct(t.(left := l)) && Slots(t.(left := l)) <= Slots(t) + extra && t.slot !in Slots(l)
  {
  }

  lemma NodeRight(t: Tree, r: Tree, extra: set<nat>)
    requires t.Node? && Distinct(t) && Distinct(r) && Slots(r) <= Slots(t.right) + extra && extra !! Slots(t)
    ensures Distinct(t.(right := r)) && Slots(t.(right := r)) <= Slots(t) + extra && t.slot !in Slots(r)
  {
  }

  /** Storing a rebuilt left subtree in the root. */
  lemma ReplaceLeft(s: seq<Level>, s': seq<Level>, root: nat, t: Tree, li: nat, l: Tree)
    requires Distinct(t) && Linked(s, root, t) && |s| == |s'| && s'[root] == s[root]
    requires forall i | i in Slots(t.right) && i < |s| :: s[i] == s'[i]
    requires Rep(s', li, l) && root !in Slots(l)
    ensures Linked(s'[root := s'[root].(left := li)], root, t.(left := l))
  {
    hide Distinct; hide Slots; hide Rep;
    DistinctNode(t);
    var s2 := s'[root := s'[root].(left := li)];
    RepFrame(s, s2, s[root].right, t.right);
    RepFrame(s', s2, li, l);
  }

  lemma ReplaceRight(s: seq<Level>, s': seq<Level>, root: nat, t: Tree, ri: nat, r: Tree)
    requires Distinct(t) && Linked(s, root, t) && |s| == |s'| && s'[root] == s[root]
    requires forall i | i in Slots(t.left) && i < |s| :: s[i] == s'[i]
    requires Rep(s', ri, r) && root !in Slots(r)
    ensures Linked(s'[root := s'[root].(right := ri)], root, t.(right := r))
  {
    hide Distinct; hide Slots; hide Rep;
    DistinctNode(t);
    var s2 := s'[root := s'[root].(right := ri)];
    RepFrame(s, s2, s[root].left, t.left);
    RepFrame(s', s2, ri, r);
  }

  /** The tree before rebalancing: the child on the side of the new price has been rebuilt. */
  function Descended(t: Tree, slot: nat, item: Item): Tree
    requires t.Node?
  {
    if item.price < t.item.price then t.(left := AvlTree.Insert(t.left, slot, item))
    else if item.price > t.item.price then t.(right := AvlTree.Insert(t.right, slot, item))
    else t
  }

  /** After an insertion below the root, a double rotation always finds the grandchild it lifts. */
  lemma InsertFixable(t: Tree, slot: nat, item: Item)
    requires t.Node? && Bst(t) && Balanced(t)
    ensures Bst(t.left) && Bst(t.right) && Balanced(t.left) && Balanced(t.right)
    ensures var u := Descended(t, slot, item);
      && (Balance(u) > 1 && item.price > u.left.item.price ==> u.left.right.Node?)
      && (Balance(u) < -1 && item.price < u.right.item.price ==> u.right.left.Node?)
  {
    AscendingParts(InOrder(t.left), t.item, InOrder(t.right));
    if item.price < t.item.price {
      if HasPrice(InOrder(t.left), item.price) {
        InsertDuplicate(t.left, slot, item);
      } else {
        InsertBalanced(t.left, slot, item);
      }
    } else if item.price > t.item.price {
      if HasPrice(InOrder(t.right), item.price) {
        InsertDuplicate(t.right, slot, item);
      } else {
        InsertBalanced(t.right, slot, item);
      }
    }
  }

  /** The tree before rebalancing: one child has lost a price. */
  function Shrunk(t: Tree, p: int): Tree
    requires t.Node?
    requires p == t.item.price ==> t.right.Node?
  {
    if p < t.item.price then t.(left := AvlTree.Remove(t.left, p))
    else if p > t.item.price then t.(right := AvlTree.Remove(t.right, p))
    else t.(item := MinItem(t.right), right := AvlTree.Remove(t.right, MinItem(t.right).price))
  }

  function EmptyItem(price: int): Item {
    Item(price, 0, 0, NIL, NIL)
  }

  /** One side's tree, its in-order contents and its cached level count agree. */
  ghost predicate SideOk(pool: seq<Level>, root: nat, t: Tree, m: map<int, Item>, count: nat) {
    && Rep(pool, root, t)
    && Bst(t) && Balanced(t) && Distinct(t)
    && Represents(m, InOrder(t))
    && count == |m|
  }

  /** Every free slot is listed once and is in neither tree. */
  ghost predicate FreeOk(f: seq<nat>, trees: Sided<Tree>) {
    && (forall i, j | 0 <= i < j < |f| :: f[i] != f[j])
    && (forall i | 0 <= i < |f| :: f[i] < LEVEL_SLOTS && f[i] !in Slots(trees.bid) && f[i] !in Slots(trees.ask))
  }

  /** Each slot is free or in exactly one tree, and the trees hold what items says. */
  ghost predicate PoolOk(pool: seq<Level>, f: seq<nat>, roots: Sided<nat>, counts: Sided<nat>,
                         trees: Sided<Tree>, items: Sided<map<int, Item>>) {
    && |pool| == LEVEL_SLOTS
    && SideOk(pool, roots.bid, trees.bid, items.bid, counts.bid)
    && SideOk(pool, roots.ask, trees.ask, items.ask, counts.ask)
    && Slots(trees.bid) !! Slots(trees.ask)
    && FreeOk(f, trees)
    && counts.bid <= MAX_LEVELS && counts.ask <= MAX_LEVELS
    && |f| + counts.bid + counts.ask == LEVEL_SLOTS
  }

  /** The side that gains a level. */
  lemma OpenSide(s: seq<Level>, root: nat, t: Tree, m: map<int, Item>, count: nat,
                 slot: nat, item: Item, s': seq<Level>, r: nat)
    requires SideOk(s, root, t, m, count) && item.price !in m
    requires var u := AvlTree.Insert(t, slot, item); Rep(s', r, u) && Distinct(u)
    ensures SideOk(s', r, AvlTree.Insert(t, slot, item), m[item.price := item], count + 1)
  {
    AbsentPrice(m, InOrder(t), item.price);
    InsertBalanced(t, slot, item);
    var k := InsertContents(t, slot, item);
    InsertAtAscending(InOrder(t), k, item);
    RepresentsInsert(m, InOrder(t), k, item);
  }

  /** The side whose slots are not written. */
  lemma KeepSide(s: seq<Level>, s': seq<Level>, root: nat, t: Tree, m: map<int, Item>, count: nat)
    requires SideOk(s, root, t, m, count) && |s'| == |s|
    requires forall i | i in Slots(t) && i < |s| :: s'[i] == s[i]
    ensures SideOk(s', root, t, m, count)
  {
    RepFrame(s, s', root, t);
  }

  /** Replacing one side, while the slots of the other one are left alone. */
  lemma SideChanges(side: Side, s: seq<Level>, f: seq<nat>, roots: Sided<nat>, counts: Sided<nat>,
                    trees: Sided<Tree>, items: Sided<map<int, Item>>,
                    s': seq<Level>, f': seq<nat>, r: nat, count: nat, u: Tree, m: map<int, Item>)
    requires PoolOk(s, f, roots, counts, trees, items) && |s'| == |s|
    requires SideOk(s', r, u, m, count) && count <= MAX_LEVELS
    requires FreeOk(f', trees.With(side, u)) && |f'| + count == |f| + counts.Get(side)
    requires Slots(u) !! Slots(trees.Get(side.Opposite()))
    requires forall i | i in Slots(trees.Get(side.Opposite())) && i < |s| :: s'[i] == s[i]
    ensures PoolOk(s', f', roots.With(side, r), counts.With(side, count), trees.With(side, u), items.With(side, m))
  {
    hide SideOk; hide FreeOk; hide Slots;
    var other := side.Opposite();
    KeepSide(s, s', roots.Get(other), trees.Get(other), items.Get(other), counts.Get(other));
  }

  lemma FreeShrinks(f: seq<nat>, side: Side, trees: Sided<Tree>, u: Tree)
    requires FreeOk(f, trees) && f != []
    requires Slots(u) == Slots(trees.Get(side)) + {f[|f| - 1]}
    ensures FreeOk(f[..|f| - 1], trees.With(side, u))
  {
  }

  /** A side with room for a level finds a free slot, and that slot may be linked into its tree. */
  lemma OpenReady(side: Side, s: seq<Level>, f: seq<nat>, roots: Sided<nat>, counts: Sided<nat>,
                  trees: Sided<Tree>, items: Sided<map<int, Item>>, item: Item)
    requires PoolOk(s, f, roots, counts, trees, items)
    requires item.price !in items.Get(side) && counts.Get(side) < MAX_LEVELS
    ensures f != [] && f[|f| - 1] < LEVEL_SLOTS
    ensures var t, x := trees.Get(side), f[|f| - 1];
      && Bst(t) && Balanced(t) && Distinct(t) && x !in Slots(t)
      && Rep(s[x := Level(item, NIL, NIL, 1)], roots.Get(side), t)
    ensures var u := AvlTree.Insert(trees.Get(side), f[|f| - 1], item);
      && Distinct(u) && Slots(u) == Slots(trees.Get(side)) + {f[|f| - 1]}
      && ItemAt(u, f[|f| - 1]) == item
  {
    hide Represents; hide Bst;
    var t, x := trees.Get(side), f[|f| - 1];
    AbsentPrice(items.Get(side), InOrder(t), item.price);
    RepUpdate(s, x, Level(item, NIL, NIL, 1), roots.Get(side), t);
    InsertSlots(t, x, item);
    InsertItemAt(t, x, item);
  }

  /** Linking the last free slot as a new level of one side. */
  lemma OpenKeeps(side: Side, s: seq<Level>, f: seq<nat>, roots: Sided<nat>, counts: Sided<nat>,
                  trees: Sided<Tree>, items: Sided<map<int, Item>>, item: Item, s': seq<Level>, r: nat)
    requires PoolOk(s, f, roots, counts, trees, items) && |s'| == |s| && f != []
    requires item.price !in items.Get(side) && counts.Get(side) < MAX_LEVELS
    requires var u := AvlTree.Insert(trees.Get(side), f[|f| - 1], item);
      Rep(s', r, u) && Distinct(u) && Slots(u) == Slots(trees.Get(side)) + {f[|f| - 1]}
    requires forall i | 0 <= i < |s| && i !in Slots(trees.Get(side)) && i != f[|f| - 1] :: s'[i] == s[i]
    ensures PoolOk(s', f[..|f| - 1], roots.With(side, r), counts.With(side, counts.Get(side) + 1),
                   trees.With(side, AvlTree.Insert(trees.Get(side), f[|f| - 1], item)),
                   items.With(side, items.Get(side)[item.price := item]))
  {
    hide SideOk; hide AvlTree.Insert; hide Slots; hide FreeOk; hide Rep; hide Distinct; hide PoolOk;
    var x, t := f[|f| - 1], trees.Get(side);
    var u, m := AvlTree.Insert(t, x, item), items.Get(side)[item.price := item];
    SideFacts(side, s, f, roots, counts, trees, items);
    LastIsFree(f, trees);
    FreeShrinks(f, side, trees, u);
    OpenSide(s, roots.Get(side), t, items.Get(side), counts.Get(side), x, item, s', r);
    SideChanges(side, s, f, roots, counts, trees, items, s', f[..|f| - 1], r, counts.Get(side) + 1, u, m);
  }

  lemma LastIsFree(f: seq<nat>, trees: Sided<Tree>)
    requires FreeOk(f, trees) && f != []
    ensures f[|f| - 1] < LEVEL_SLOTS && f[|f| - 1] !in Slots(trees.bid) && f[|f| - 1] !in Slots(trees.ask)
  {
  }

  lemma SideFacts(side: Side, s: seq<Level>, f: seq<nat>, roots: Sided<nat>, counts: Sided<nat>,
                  trees: Sided<Tree>, items: Sided<map<int, Item>>)
    requires PoolOk(s, f, roots, counts, trees, items)
    ensures SideOk(s, roots.Get(side), trees.Get(side), items.Get(side), counts.Get(side))
    ensures |f| + counts.Get(side) <= LEVEL_SLOTS == |s| && counts.Get(side) <= MAX_LEVELS && FreeOk(f, trees)
    ensures Slots(trees.Get(side)) !! Slots(trees.Get(side.Opposite())) && Slots(trees.bid) !! Slots(trees.ask)
  {
    hide SideOk; hide FreeOk; hide Slots;
  }

  // ----- closing a level

  lemma CloseSide(s: seq<Level>, root: nat, t: Tree, m: map<int, Item>, count: nat, p: int, s': seq<Level>, r: nat)
    requires SideOk(s, root, t, m, count) && p in m
    requires var u := AvlTree.Remove(t, p); Rep(s', r, u) && Distinct(u)
    ensures count > 0 && SideOk(s', r, AvlTree.Remove(t, p), m - {p}, count - 1)
  {
    AbsentPrice(m, InOrder(t), p);
    RemoveBalanced(t, p);
    var k := RemoveContents(t, p);
    RemoveAtAscending(InOrder(t), k);
    RepresentsRemove(m, InOrder(t), k);
    assert |m - {p}| == |m| - 1;
  }

  lemma FreeGrows(f: seq<nat>, x: nat, side: Side, trees: Sided<Tree>, u: Tree)
    requires FreeOk(f, trees) && Slots(trees.bid) !! Slots(trees.ask)
    requires x in Slots(trees.Get(side)) && x < LEVEL_SLOTS && Slots(u) == Slots(trees.Get(side)) - {x}
    ensures FreeOk(f + [x], trees.With(side, u))
  {
  }

  lemma CloseReady(s: seq<Level>, root: nat, t: Tree, m: map<int, Item>, count: nat, p: int)
    requires SideOk(s, root, t, m, count) && p in m
    ensures |Freed(t, p)| == 1 && Freed(t, p)[0] < |s| && Freed(t, p)[0] in Slots(t)
    ensures Distinct(AvlTree.Remove(t, p)) && Slots(AvlTree.Remove(t, p)) == Slots(t) - {Freed(t, p)[0]}
    ensures count > 0
  {
    hide Bst; hide Distinct; hide Freed; hide AvlTree.Remove;
    AbsentPrice(m, InOrder(t), p);
    RemoveOne(t, p);
    RepItem(s, root, t, Freed(t, p)[0]);
  }

  lemma CloseKeeps(side: Side, s: seq<Level>, f: seq<nat>, roots: Sided<nat>, counts: Sided<nat>,
                   trees: Sided<Tree>, items: Sided<map<int, Item>>, p: int, s': seq<Level>, r: nat)
    requires PoolOk(s, f, roots, counts, trees, items) && p in items.Get(side) && |s'| == |s|
    requires Rep(s', r, AvlTree.Remove(trees.Get(side), p))
    requires forall i | 0 <= i < |s| && i !in Slots(trees.Get(side)) :: s'[i] == s[i]
    ensures counts.Get(side) > 0
    ensures PoolOk(s', f + Freed(trees.Get(side), p), roots.With(side, r), counts.With(side, counts.Get(side) - 1),
                   trees.With(side, AvlTree.Remove(trees.Get(side), p)),
                   items.With(side, items.Get(side) - {p}))
  {
    hide SideOk; hide AvlTree.Remove; hide Slots; hide Freed; hide Rep; hide Distinct; hide FreeOk; hide PoolOk;
    var t, u, m := trees.Get(side), AvlTree.Remove(trees.Get(side), p), items.Get(side) - {p};
    SideFacts(side, s, f, roots, counts, trees, items);
    CloseReady(s, roots.Get(side), t, items.Get(side), counts.Get(side), p);
    var x := Freed(t, p)[0];
    assert Freed(t, p) == [x];
    FreeGrows(f, x, side, trees, u);
    CloseSide(s, roots.Get(side), t, items.Get(side), counts.Get(side), p, s', r);
    SideChanges(side, s, f, roots, counts, trees, items, s', f + Freed(t, p), r, counts.Get(side) - 1, u, m);
  }

  // ----- overwriting the payload of a level

  lemma {:induction false} RepSetItem(s: seq<Level>, root: nat, t: Tree, li: nat, item: Item)
    requires Rep(s, root, t) && Distinct(t) && li < |s|
    ensures Rep(s[li := s[li].(item := item)], root, AvlTree.SetItem(t, li, item))
    decreases t
  {
    if t.Node? {
      RepSetItem(s, s[root].left, t.left, li, item);
      RepSetItem(s, s[root].right, t.right, li, item);
      SetItemHeight(t, li, item);
      SetItemAbsentBelow(t, li, item);
    }
  }

  lemma PutSide(s: seq<Level>, root: nat, t: Tree, m: map<int, Item>, count: nat, li: nat, item: Item)
    requires SideOk(s, root, t, m, count) && li in Slots(t) && li < |s| && item.price == s[li].item.price
    ensures SideOk(s[li := s[li].(item := item)], root, AvlTree.SetItem(t, li, item), m[item.price := item], count)
  {
    RepItem(s, root, t, li);
    RepSetItem(s, root, t, li, item);
    SetItemShape(t, li, item);
    var k := SetItemOrder(t, li, item);
    RepresentsUpdate(m, InOrder(t), k, item);
    assert item.price in m && |m[item.price := item]| == |m|;
  }

  lemma PutKeeps(side: Side, s: seq<Level>, f: seq<nat>, roots: Sided<nat>, counts: Sided<nat>,
                 trees: Sided<Tree>, items: Sided<map<int, Item>>, li: nat, item: Item)
    requires PoolOk(s, f, roots, counts, trees, items)
    requires li < |s| && li in Slots(trees.Get(side)) && item.price == s[li].item.price
    ensures var u := AvlTree.SetItem(trees.Get(side), li, item);
      && li in Slots(u)
      && PoolOk(s[li := s[li].(item := item)], f, roots, counts, trees.With(side, u),
                items.With(side, items.Get(side)[item.price := item]))
  {
    var t, other := trees.Get(side), side.Opposite();
    SlotsSetItem(t, li, item);
    hide SideOk; hide Slots; hide AvlTree.SetItem;
    PutSide(s, roots.Get(side), t, items.Get(side), counts.Get(side), li, item);
    KeepSide(s, s[li := s[li].(item := item)], roots.Get(other), trees.Get(other), items.Get(other), counts.Get(other));
  }

  lemma {:induction false} RepHolds(pool: seq<Level>, root: nat, t: Tree, slot: nat, it: Item)
    requires Rep(pool, root, t) && ItemOfSlot(t, slot, it)
    ensures slot < |pool| && pool[slot].item == it
    decreases t
  {
    if !(t.slot == slot && t.item == it) {
      if ItemOfSlot(t.left, slot, it) {
        RepHolds(pool, pool[root].left, t.left, slot, it);
      } else {
        RepHolds(pool, pool[root].right, t.right, slot, it);
      }
    }
  }

  lemma BstSize(t: Tree, m: map<int, Item>)
    requires Bst(t) && Represents(m, InOrder(t))
    ensures |InOrder(t)| == |m|
  {
    hide InOrder;
    CountPrices(InOrder(t), m);
  }

  lemma {:induction false} CountPrices(s: seq<Item>, m: map<int, Item>)
    requires Ascending(s) && Represents(m, s)
    ensures |s| == |m|
    decreases |s|
  {
    if s == [] {
      EmptyMap(m, s);
    } else {
      var n := |s| - 1;
      RepresentsRemove(m, s, n);
      assert RemoveAt(s, n) == s[..n];
      CountPrices(s[..n], m - {s[n].price});
      assert |m - {s[n].price}| == |m| - 1;
    }
  }

  /** The slots listed are the levels of a side, best price first. */
  ghost predicate Listed(side: Side, pool: seq<Level>, m: map<int, Item>, slots: seq<nat>) {
    && (forall i | 0 <= i < |slots| :: slots[i] < |pool|)
    && (forall i, j | 0 <= i < j < |slots| :: Better(side, pool[slots[i]].item.price, pool[slots[j]].item.price))
    && (forall i | 0 <= i < |slots| :: pool[slots[i]].item.price in m && m[pool[slots[i]].item.price] == pool[slots[i]].item)
    && (forall p | p in m :: exists i :: 0 <= i < |slots| && pool[slots[i]].item.price == p)
  }

  function FromEnd(side: Side, n: nat, i: nat): int {
    if side == Ask then i else n - 1 - i
  }

  /** The slots hold the payloads s, from the end that matches first. */
  ghost predicate Mirrors(side: Side, pool: seq<Level>, w: seq<nat>, s: seq<Item>) {
    |w| == |s| && forall i | 0 <= i < |w| :: w[i] < |pool| && pool[w[i]].item == s[FromEnd(side, |s|, i)]
  }

  lemma MirrorsListed(side: Side, pool: seq<Level>, w: seq<nat>, s: seq<Item>, m: map<int, Item>)
    requires Mirrors(side, pool, w, s) && Ascending(s) && Represents(m, s)
    ensures Listed(side, pool, m, w)
  {
    forall i, j | 0 <= i < j < |w|
      ensures Better(side, pool[w[i]].item.price, pool[w[j]].item.price)
    {
      assert pool[w[i]].item == s[FromEnd(side, |s|, i)] && pool[w[j]].item == s[FromEnd(side, |s|, j)];
    }
    forall p | p in m
      ensures exists i :: 0 <= i < |w| && pool[w[i]].item.price == p
    {
      AbsentPrice(m, s, p);
      var k :| 0 <= k < |s| && s[k].price == p;
      assert pool[w[FromEnd(side, |s|, k)]].item == s[k];
    }
  }

  lemma WalkListed(side: Side, pool: seq<Level>, root: nat, t: Tree, m: map<int, Item>)
    requires Rep(pool, root, t) && Bst(t) && Represents(m, InOrder(t))
    ensures Listed(side, pool, m, Walk(side, t)) && |Walk(side, t)| == |InOrder(t)|
  {
    hide Listed; hide Rep; hide Walk; hide InOrder; hide Represents; hide Ascending;
    var w, s := Walk(side, t), InOrder(t);
    WalkSize(side, t);
    forall i | 0 <= i < |w|
      ensures w[i] < |pool| && pool[w[i]].item == s[FromEnd(side, |s|, i)]
    {
      WalkItems(side, t, i);
      RepHolds(pool, root, t, w[i], s[FromEnd(side, |s|, i)]);
    }
    MirrorsListed(side, pool, w, s, m);
  }

  lemma {:induction false} SlotsCount(t: Tree)
    requires Distinct(t)
    ensures |Slots(t)| == |InOrder(t)|
  {
    if t.Node? {
      SlotsCount(t.left);
      SlotsCount(t.right);
      DisjointCount(Slots(t.left), {t.slot});
      DisjointCount(Slots(t.left) + {t.slot}, Slots(t.right));
    }
  }

  lemma DisjointCount(a: set<nat>, b: set<nat>)
    requires a !! b
    ensures |a + b| == |a| + |b|
  {
  }

  ghost function Listing(f: seq<nat>): (s: set<nat>)
    requires forall i, j | 0 <= i < j < |f| :: f[i] != f[j]
    ensures |s| == |f| && forall x: nat :: x in s <==> x in f
  {
    if f == [] then {} else
      LastMember(f);
      Listing(f[..|f| - 1]) + {f[|f| - 1]}
  }

  lemma LastMember(f: seq<nat>)
    requires f != []
    ensures forall x: nat :: x in f <==> x in f[..|f| - 1] || x == f[|f| - 1]
  {
    assert f == f[..|f| - 1] + [f[|f| - 1]];
  }

  lemma {:induction false} RepBelow(pool: seq<Level>, root: nat, t: Tree, n: nat)
    requires Rep(pool, root, t) && |pool| == n
    ensures forall x | x in Slots(t) :: x < n
    decreases t
  {
    if t.Node? {
      RepBelow(pool, pool[root].left, t.left, n);
      RepBelow(pool, pool[root].right, t.right, n);
    }
  }

  /** Each level slot is on the free-stack or in exactly one of the two trees. */
  lemma EveryLevelOnce(pool: seq<Level>, f: seq<nat>, roots: Sided<nat>, counts: Sided<nat>,
                       trees: Sided<Tree>, items: Sided<map<int, Item>>, x: nat)
    requires PoolOk(pool, f, roots, counts, trees, items) && x < LEVEL_SLOTS
    ensures x in f || x in Slots(trees.bid) || x in Slots(trees.ask)
    ensures !(x in f && x in Slots(trees.bid)) && !(x in f && x in Slots(trees.ask))
    ensures !(x in Slots(trees.bid) && x in Slots(trees.ask))
  {
    SlotsCount(trees.bid);
    SlotsCount(trees.ask);
    BstSize(trees.bid, items.bid);
    BstSize(trees.ask, items.ask);
    RepBelow(pool, roots.bid, trees.bid, LEVEL_SLOTS);
    RepBelow(pool, roots.ask, trees.ask, LEVEL_SLOTS);
    hide Rep; hide Bst; hide Balanced; hide Distinct; hide Represents; hide InOrder; hide Slots;
    AllSlots(f, Slots(trees.bid), Slots(trees.ask));
  }

  lemma AllSlots(f: seq<nat>, bid: set<nat>, ask: set<nat>)
    requires forall i, j | 0 <= i < j < |f| :: f[i] != f[j]
    requires forall i | 0 <= i < |f| :: f[i] < LEVEL_SLOTS && f[i] !in bid && f[i] !in ask
    requires bid !! ask && |f| + |bid| + |ask| == LEVEL_SLOTS
    requires forall x | x in bid + ask :: x < LEVEL_SLOTS
    ensures forall x: nat | x < LEVEL_SLOTS :: x in f || x in bid || x in ask
  {
    hide Below; hide Listing;
    var free := Listing(f);
    assert forall x: nat | x in f :: x < LEVEL_SLOTS && x !in bid && x !in ask;
    DisjointCount(free, bid);
    DisjointCount(free + bid, ask);
    assert free !! bid && (free + bid) !! ask;
    var all, n := free + bid + ask, LEVEL_SLOTS;
    forall x | x in all
      ensures x in Below(n)
    {
      assert x in f ==> x < n;
      assert x in bid + ask ==> x < n;
    }
    SubsetCount(all, Below(n));
  }

  class LevelPool {
    const pool: array<Level>
    const free: FreeStack.FreeStack
    var roots: Sided<nat>
    var counts: Sided<nat>
    ghost var trees: Sided<Tree>
    // The abstract value: which payload is stored at which price, on each side.
    ghost var items: Sided<map<int, Item>>

    ghost predicate Valid()
      reads this, pool, free, free.slots
    {
      && pool.Length == LEVEL_SLOTS == free.slots.Length
      && free.Valid()
      && PoolOk(pool[..], free.Contents(), roots, counts, trees, items)
    }

    lemma TreeIs(side: Side)
      requires Valid()
      ensures Rep(pool[..], roots.Get(side), trees.Get(side)) && pool.Length < NIL
      ensures Bst(trees.Get(side)) && Represents(items.Get(side), InOrder(trees.Get(side)))
    {
      hide Bst; hide Represents; hide Rep; hide Distinct; hide Balanced; hide FreeOk; hide Slots;
    }

    lemma CountIs(side: Side)
      requires Valid()
      ensures counts.Get(side) == |items.Get(side)| <= MAX_LEVELS
    {
    }

    constructor ()
      ensures Valid() && fresh(pool) && fresh(free) && fresh(free.slots)
      ensures items == Sided(map[], map[])
    {
      pool := new Level[LEVEL_SLOTS](_ => Level(Item(0, 0, 0, 0, 0), 0, 0, 0));
      free := new FreeStack.FreeStack(LEVEL_SLOTS);
      roots := Sided(NIL, NIL);
      counts := Sided(0, 0);
      trees := Sided(Leaf, Leaf);
      items := Sided(map[], map[]);
    }

    method UpdateHeight(i: nat, ghost t: Tree)
      requires pool.Length < NIL && Distinct(t) && Linked(pool[..], i, t)
      modifies pool
      ensures Rep(pool[..], i, t)
      ensures pool[..] == old(pool[..])[i := old(pool[i]).(height := Height(t))]
    {
      var lh := if pool[i].left == NIL then 0 else pool[pool[i].left].height;
      var rh := if pool[i].right == NIL then 0 else pool[pool[i].right].height;
      ghost var s := pool[..];
      pool[i] := pool[i].(height := 1 + if lh > rh then lh else rh);
      assert pool[..] == s[i := pool[i]];
      RepUpdate(s, i, pool[i], s[i].left, t.left);
      RepUpdate(s, i, pool[i], s[i].right, t.right);
    }

    method SetLeft(i: nat, left: nat)
      requires i < pool.Length
      modifies pool
      ensures pool[..] == old(pool[..])[i := old(pool[i]).(left := left)]
    {
      pool[i] := pool[i].(left := left);
    }

    method SetRight(i: nat, right: nat)
      requires i < pool.Length
      modifies pool
      ensures pool[..] == old(pool[..])[i := old(pool[i]).(right := right)]
    {
      pool[i] := pool[i].(right := right);
    }

    method RotateRight(yi: nat, ghost t: Tree) returns (xi: nat)
      requires pool.Length < NIL && Distinct(t) && Linked(pool[..], yi, t) && t.left.Node?
      modifies pool
      ensures Rep(pool[..], xi, AvlTree.RotateRight(t))
      ensures forall i | 0 <= i < pool.Length && i !in Slots(t) :: pool[i] == old(pool[i])
    {
      ghost var s := pool[..];
      xi := pool[yi].left;
      RelinkRight(s, yi, t);
      var t2 := pool[xi].right;
      SetRight(xi, yi);
      SetLeft(yi, t2);
      ghost var u := AvlTree.RotateRight(t);
      ghost var s1 := pool[..];
      UpdateHeight(yi, u.right);
      RepUpdate(s1, yi, pool[yi], s[xi].left, u.left);
      UpdateHeight(xi, u);
    }

    method RotateLeft(xi: nat, ghost t: Tree) returns (yi: nat)
      requires pool.Length < NIL && Distinct(t) && Linked(pool[..], xi, t) && t.right.Node?
      modifies pool
      ensures Rep(pool[..], yi, AvlTree.RotateLeft(t))
      ensures forall i | 0 <= i < pool.Length && i !in Slots(t) :: pool[i] == old(pool[i])
    {
      ghost var s := pool[..];
      yi := pool[xi].right;
      RelinkLeft(s, xi, t);
      var t2 := pool[yi].left;
      SetLeft(yi, xi);
      SetRight(xi, t2);
      ghost var u := AvlTree.RotateLeft(t);
      ghost var s1 := pool[..];
      UpdateHeight(xi, u.left);
      RepUpdate(s1, xi, pool[xi], s[yi].right, u.right);
      UpdateHeight(yi, u);
    }

    method RotateLeftRight(root: nat, ghost t: Tree) returns (r: nat)
      requires pool.Length < NIL && Distinct(t) && Linked(pool[..], root, t) && t.left.Node? && t.left.right.Node?
      modifies pool
      ensures Rep(pool[..], r, AvlTree.RotateRight(t.(left := AvlTree.RotateLeft(t.left))))
      ensures forall i | 0 <= i < pool.Length && i !in Slots(t) :: pool[i] == old(pool[i])
    {
      ghost var s := pool[..];
      ghost var l := AvlTree.RotateLeft(t.left);
      RotateLeftSlots(t.left);
      var li := RotateLeft(pool[root].left, t.left);
      ReplaceLeft(s, pool[..], root, t, li, l);
      SetLeft(root, li);
      r := RotateRight(root, t.(left := l));
    }

    method RotateRightLeft(root: nat, ghost t: Tree) returns (r: nat)
      requires pool.Length < NIL && Distinct(t) && Linked(pool[..], root, t) && t.right.Node? && t.right.left.Node?
      modifies pool
      ensures Rep(pool[..], r, AvlTree.RotateLeft(t.(right := AvlTree.RotateRight(t.right))))
      ensures forall i | 0 <= i < pool.Length && i !in Slots(t) :: pool[i] == old(pool[i])
    {
      ghost var s := pool[..];
      ghost var y := AvlTree.RotateRight(t.right);
      RotateRightSlots(t.right);
      var ri := RotateRight(pool[root].right, t.right);
      ReplaceRight(s, pool[..], root, t, ri, y);
      SetRight(root, ri);
      r := RotateLeft(root, t.(right := y));
    }

    function HeightOf(i: nat): int
      requires i == NIL || i < pool.Length
      reads pool
    {
      if i == NIL then 0 else pool[i].height
    }

    method BalanceOf(i: nat, ghost t: Tree) returns (b: int)
      requires pool.Length < NIL && Rep(pool[..], i, t)
      ensures b == Balance(t)
    {
      if i == NIL {
        return 0;
      }
      assert t.Node?;
      b := HeightOf(pool[i].left) - HeightOf(pool[i].right);
    }

    method FixInsert(root: nat, p: int, ghost t: Tree) returns (r: nat)
      requires pool.Length < NIL && t.Node? && Distinct(t) && Rep(pool[..], root, t)
      requires Balance(t) > 1 && p > t.left.item.price ==> t.left.right.Node?
      requires Balance(t) < -1 && p < t.right.item.price ==> t.right.left.Node?
      modifies pool
      ensures Rep(pool[..], r, AvlTree.FixInsert(t, p))
      ensures forall i | 0 <= i < pool.Length && i !in Slots(t) :: pool[i] == old(pool[i])
    {
      var bal := BalanceOf(root, t);
      if bal > 1 && p < pool[pool[root].left].item.price {
        r := RotateRight(root, t);
      } else if bal < -1 && p > pool[pool[root].right].item.price {
        r := RotateLeft(root, t);
      } else if bal > 1 && p > pool[pool[root].left].item.price {
        r := RotateLeftRight(root, t);
      } else if bal < -1 && p < pool[pool[root].right].item.price {
        r := RotateRightLeft(root, t);
      } else {
        r := root;
      }
    }

    /** The recursive half of avl_insert: rebuild one child and store it in the root. */
    method InsertBelow(root: nat, node: nat, ghost t: Tree)
      requires pool.Length < NIL && t.Node? && Rep(pool[..], root, t)
      requires Bst(t) && Balanced(t) && Distinct(t)
      requires node < pool.Length && node !in Slots(t) && pool[node] == Level(pool[node].item, NIL, NIL, 1)
      modifies pool
      ensures var u := Descended(t, node, old(pool[node].item)); Distinct(u) && Linked(pool[..], root, u)
      ensures Slots(Descended(t, node, old(pool[node].item))) <= Slots(t) + {node}
      ensures forall i | 0 <= i < pool.Length && i !in Slots(t) && i != node :: pool[i] == old(pool[i])
      decreases t, 0
    {
      hide Bst; hide Balanced; hide AvlTree.Insert; hide Rep; hide Linked; hide Distinct; hide Slots;
      ghost var s, item := pool[..], pool[node].item;
      InsertFixable(t, node, item);
      AtNode(s, root, t);
      if pool[node].item.price < pool[root].item.price {
        var li := Insert(pool[root].left, node, t.left);
        NodeLeft(t, AvlTree.Insert(t.left, node, item), {node});
        ReplaceLeft(s, pool[..], root, t, li, AvlTree.Insert(t.left, node, item));
        SetLeft(root, li);
      } else if pool[node].item.price > pool[root].item.price {
        var ri := Insert(pool[root].right, node, t.right);
        NodeRight(t, AvlTree.Insert(t.right, node, item), {node});
        ReplaceRight(s, pool[..], root, t, ri, AvlTree.Insert(t.right, node, item));
        SetRight(root, ri);
      }
    }

    /** avl_insert: links the detached slot node into the tree at root; a duplicate price changes nothing. */
    method Insert(root: nat, node: nat, ghost t: Tree) returns (r: nat)
      requires pool.Length < NIL && Rep(pool[..], root, t)
      requires Bst(t) && Balanced(t) && Distinct(t)
      requires node < pool.Length && node !in Slots(t) && pool[node] == Level(pool[node].item, NIL, NIL, 1)
      modifies pool
      ensures var u := AvlTree.Insert(t, node, old(pool[node].item));
        Rep(pool[..], r, u) && Distinct(u) && Slots(u) <= Slots(t) + {node}
      ensures forall i | 0 <= i < pool.Length && i !in Slots(t) && i != node :: pool[i] == old(pool[i])
      decreases t, 1
    {
      if root == NIL {
        return node;
      }
      var np := pool[node].item.price;
      if np == pool[root].item.price {
        return root;
      }
      ghost var u := Descended(t, node, pool[node].item);
      InsertFixable(t, node, pool[node].item);
      InsertBelow(root, node, t);
      UpdateHeight(root, u);
      FixInsertSlots(u, np);
      r := FixInsert(root, np, u);
    }

    method Min(root: nat, ghost t: Tree) returns (m: nat)
      requires pool.Length < NIL && Rep(pool[..], root, t)
      ensures t.Leaf? ==> m == NIL
      ensures t.Node? ==> m == MinSlot(t) < pool.Length && pool[m].item == MinItem(t) && m in Slots(t)
    {
      m := root;
      ghost var u := t;
      while m != NIL && pool[m].left != NIL
        invariant Rep(pool[..], m, u) && Slots(u) <= Slots(t)
        invariant t.Leaf? <==> u.Leaf?
        invariant t.Node? ==> MinSlot(u) == MinSlot(t) && MinItem(u) == MinItem(t)
        decreases u
      {
        m := pool[m].left;
        u := u.left;
      }
    }

    method Max(root: nat, ghost t: Tree) returns (m: nat)
      requires pool.Length < NIL && Rep(pool[..], root, t)
      ensures t.Leaf? ==> m == NIL
      ensures t.Node? ==> m == MaxSlot(t) < pool.Length && pool[m].item == MaxItem(t) && m in Slots(t)
    {
      m := root;
      ghost var u := t;
      while m != NIL && pool[m].right != NIL
        invariant Rep(pool[..], m, u) && Slots(u) <= Slots(t)
        invariant t.Leaf? <==> u.Leaf?
        invariant t.Node? ==> MaxSlot(u) == MaxSlot(t) && MaxItem(u) == MaxItem(t)
        decreases u
      {
        m := pool[m].right;
        u := u.right;
      }
    }

    method FixRemove(root: nat, ghost t: Tree) returns (r: nat)
      requires pool.Length < NIL && t.Node? && Distinct(t) && Rep(pool[..], root, t)
      modifies pool
      ensures Rep(pool[..], r, AvlTree.FixRemove(t))
      ensures forall i | 0 <= i < pool.Length && i !in Slots(t) :: pool[i] == old(pool[i])
    {
      var bal := BalanceOf(root, t);
      var balL := BalanceOf(pool[root].left, t.left);
      var balR := BalanceOf(pool[root].right, t.right);
      if bal > 1 && balL >= 0 {
        r := RotateRight(root, t);
      } else if bal > 1 {
        r := RotateLeftRight(root, t);
      } else if bal < -1 && balR <= 0 {
        r := RotateLeft(root, t);
      } else if bal < -1 {
        r := RotateRightLeft(root, t);
      } else {
        r := root;
      }
    }

    /** avl_remove: unlinks the level at price p and returns its slot to the pool. */
    method Remove(root: nat, p: int, ghost t: Tree) returns (r: nat)
      requires pool.Length < NIL && Rep(pool[..], root, t)
      requires Bst(t) && Balanced(t) && Distinct(t)
      requires free.Valid() && |free.Contents()| < free.slots.Length
      modifies pool, free, free.slots
      ensures var u := AvlTree.Remove(t, p); Rep(pool[..], r, u) && Distinct(u)
      ensures forall i | 0 <= i < pool.Length && i !in Slots(t) :: pool[i] == old(pool[i])
      ensures free.Valid() && free.Contents() == old(free.Contents()) + Freed(t, p)
      decreases t, 2
    {
      hide Bst; hide Balanced; hide AvlTree.Remove; hide Rep; hide Linked; hide Distinct; hide Slots; hide Freed;
      hide Shrunk; hide AvlTree.FixRemove;
      RootIsNil(pool[..], root, t);
      if root == NIL {
        RemoveNothing(t, p);
        return NIL;
      }
      RemoveThins(t, p);
      AtNode(pool[..], root, t);
      RootIsNil(pool[..], pool[root].left, t.left);
      RootIsNil(pool[..], pool[root].right, t.right);
      if p == pool[root].item.price && (pool[root].left == NIL || pool[root].right == NIL) {
        RemoveSpliced(t, p);
        r := if pool[root].left != NIL then pool[root].left else pool[root].right;
        free.Free(root);
        return;
      }
      RemoveRebuilt(t, p);
      RemoveBelow(root, p, t);
      ghost var u := Shrunk(t, p);
      UpdateHeight(root, u);
      r := FixRemove(root, u);
    }

    /** The recursive half of avl_remove: rebuild one child, after moving the successor's payload up. */
    method RemoveBelow(root: nat, p: int, ghost t: Tree)
      requires pool.Length < NIL && Rep(pool[..], root, t) && t.Node?
      requires Bst(t) && Balanced(t) && Distinct(t)
      requires p == t.item.price ==> t.left.Node? && t.right.Node?
      requires free.Valid() && |free.Contents()| < free.slots.Length
      modifies pool, free, free.slots
      ensures var u := Shrunk(t, p); Linked(pool[..], root, u) && Distinct(u) && Slots(u) <= Slots(t)
      ensures forall i | 0 <= i < pool.Length && i !in Slots(t) :: pool[i] == old(pool[i])
      ensures free.Valid() && free.Contents() == old(free.Contents()) + Freed(t, p)
      decreases t, 1
    {
      hide Bst; hide Balanced; hide AvlTree.Remove; hide Rep; hide Linked; hide Distinct; hide Slots; hide MinItem;
      hide Freed; hide Shrunk;
      AtNode(pool[..], root, t);
      if p < pool[root].item.price {
        RemoveOnLeft(root, p, t);
      } else if p > pool[root].item.price {
        RemoveOnRight(root, p, t);
      } else {
        TakeSuccessor(root, t);
      }
    }

    /** The recursive call into the left subtree, whose new root is stored. */
    method RemoveOnLeft(root: nat, p: int, ghost t: Tree)
      requires pool.Length < NIL && Rep(pool[..], root, t) && t.Node?
      requires Bst(t) && Balanced(t) && Distinct(t) && p < t.item.price
      requires free.Valid() && |free.Contents()| < free.slots.Length
      modifies pool, free, free.slots
      ensures var u := Shrunk(t, p); Linked(pool[..], root, u) && Distinct(u) && Slots(u) <= Slots(t)
      ensures forall i | 0 <= i < pool.Length && i !in Slots(t) :: pool[i] == old(pool[i])
      ensures free.Valid() && free.Contents() == old(free.Contents()) + Freed(t, p)
      decreases t, 0
    {
      BstNode(t);
      hide Bst; hide Balanced; hide AvlTree.Remove; hide Rep; hide Linked; hide Distinct; hide Slots; hide MinItem;
      hide Freed;
      ghost var s := pool[..];
      AtNode(s, root, t);
      FreedBelow(t, p);
      RemoveThins(t.left, p);
      var li := Remove(pool[root].left, p, t.left);
      NodeLeft(t, AvlTree.Remove(t.left, p), {});
      ReplaceLeft(s, pool[..], root, t, li, AvlTree.Remove(t.left, p));
      SetLeft(root, li);
    }

    method RemoveOnRight(root: nat, p: int, ghost t: Tree)
      requires pool.Length < NIL && Rep(pool[..], root, t) && t.Node?
      requires Bst(t) && Balanced(t) && Distinct(t) && p > t.item.price
      requires free.Valid() && |free.Contents()| < free.slots.Length
      modifies pool, free, free.slots
      ensures var u := Shrunk(t, p); Linked(pool[..], root, u) && Distinct(u) && Slots(u) <= Slots(t)
      ensures forall i | 0 <= i < pool.Length && i !in Slots(t) :: pool[i] == old(pool[i])
      ensures free.Valid() && free.Contents() == old(free.Contents()) + Freed(t, p)
      decreases t, 0
    {
      BstNode(t);
      hide Bst; hide Balanced; hide AvlTree.Remove; hide Rep; hide Linked; hide Distinct; hide Slots; hide MinItem;
      hide Freed;
      ghost var s := pool[..];
      AtNode(s, root, t);
      FreedBelow(t, p);
      RemoveThins(t.right, p);
      var ri := Remove(pool[root].right, p, t.right);
      NodeRight(t, AvlTree.Remove(t.right, p), {});
      ReplaceRight(s, pool[..], root, t, ri, AvlTree.Remove(t.right, p));
      SetRight(root, ri);
    }

    /** avl_remove at a node with two children: the successor's payload moves up, its slot goes back. */
    method TakeSuccessor(root: nat, ghost t: Tree)
      requires pool.Length < NIL && Rep(pool[..], root, t) && t.Node? && t.left.Node? && t.right.Node?
      requires Bst(t) && Balanced(t) && Distinct(t)
      requires free.Valid() && |free.Contents()| < free.slots.Length
      modifies pool, free, free.slots
      ensures var u := Shrunk(t, t.item.price); Linked(pool[..], root, u) && Distinct(u) && Slots(u) <= Slots(t)
      ensures forall i | 0 <= i < pool.Length && i !in Slots(t) :: pool[i] == old(pool[i])
      ensures free.Valid() && free.Contents() == old(free.Contents()) + Freed(t, t.item.price)
      decreases t, 0
    {
      BstNode(t);
      hide Bst; hide Balanced; hide AvlTree.Remove; hide Rep; hide Linked; hide Distinct; hide Slots; hide MinItem;
      hide MinSlot;
      ghost var s := pool[..];
      AtNode(s, root, t);
      var succ := Min(pool[root].right, t.right);
      var q := pool[succ].item.price;
      RemoveThins(t.right, q);
      SetItem(root, pool[succ].item);
      ghost var s1, t1 := pool[..], t.(item := pool[root].item);
      RepUpdate(s, root, pool[root], s[root].left, t.left);
      RepUpdate(s, root, pool[root], s[root].right, t.right);
      Payload(s, root, t, pool[root].item);
      var ri := Remove(pool[root].right, q, t.right);
      NodeRight(t1, AvlTree.Remove(t.right, q), {});
      ReplaceRight(s1, pool[..], root, t1, ri, AvlTree.Remove(t.right, q));
      SetRight(root, ri);
    }

    method SetItem(i: nat, item: Item)
      requires i < pool.Length
      modifies pool
      ensures pool[..] == old(pool[..])[i := old(pool[i]).(item := item)]
    {
      pool[i] := pool[i].(item := item);
    }

    /** avl_find: the slot that holds price p, or NIL. */
    method Find(side: Side, p: int) returns (li: nat)
      requires Valid()
      ensures li == NIL <==> p !in items.Get(side)
      ensures li != NIL ==> li < pool.Length && li in Slots(trees.Get(side)) && pool[li].item == items.Get(side)[p]
    {
      li := roots.Get(side);
      ghost var u := trees.Get(side);
      SearchMap(u, p, items.Get(side));
      while li != NIL && p != pool[li].item.price
        invariant Rep(pool[..], li, u)
        invariant Search(u, p) == Search(trees.Get(side), p)
        decreases u
      {
        if p < pool[li].item.price {
          li := pool[li].left;
          u := u.left;
        } else {
          li := pool[li].right;
          u := u.right;
        }
      }
    }

    /** avl_min on the ask side, avl_max on the bid side: the level that matches first, or NIL. */
    method Best(side: Side) returns (li: nat)
      requires Valid()
      ensures li == NIL <==> items.Get(side) == map[]
      ensures li != NIL ==> li < pool.Length && li in Slots(trees.Get(side))
      ensures li != NIL ==> var it := pool[li].item;
        && it.price in items.Get(side) && items.Get(side)[it.price] == it
        && forall p | p in items.Get(side) :: p == it.price || Better(side, it.price, p)
    {
      ghost var t, m := trees.Get(side), items.Get(side);
      if side == Ask {
        MinLowest(t, m);
        li := Min(roots.ask, t);
      } else {
        MaxHighest(t, m);
        li := Max(roots.bid, t);
      }
    }

    /** collect_asc. */
    method CollectAsc(root: nat, ghost t: Tree, buf: array<nat>, n: nat) returns (n': nat)
      requires pool.Length < NIL && Rep(pool[..], root, t) && n + |Walk(Ask, t)| <= buf.Length
      modifies buf
      ensures n' == n + |Walk(Ask, t)| && buf[..n'] == old(buf[..n]) + Walk(Ask, t)
      decreases t
    {
      n' := n;
      if root != NIL {
        n' := CollectAsc(pool[root].left, t.left, buf, n');
        buf[n'] := root;
        n' := n' + 1;
        ghost var done := buf[..n'];
        assert done == old(buf[..n]) + Walk(Ask, t.left) + [root];
        n' := CollectAsc(pool[root].right, t.right, buf, n');
      }
    }

    /** collect_desc. */
    method CollectDesc(root: nat, ghost t: Tree, buf: array<nat>, n: nat) returns (n': nat)
      requires pool.Length < NIL && Rep(pool[..], root, t) && n + |Walk(Bid, t)| <= buf.Length
      modifies buf
      ensures n' == n + |Walk(Bid, t)| && buf[..n'] == old(buf[..n]) + Walk(Bid, t)
      decreases t
    {
      n' := n;
      if root != NIL {
        n' := CollectDesc(pool[root].right, t.right, buf, n');
        buf[n'] := root;
        n' := n' + 1;
        ghost var done := buf[..n'];
        assert done == old(buf[..n]) + Walk(Bid, t.right) + [root];
        n' := CollectDesc(pool[root].left, t.left, buf, n');
      }
    }

    /** The listing with which ob_top_levels starts. */
    method List(side: Side, buf: array<nat>) returns (n: nat)
      requires Valid() && buf.Length == MAX_LEVELS && buf != free.slots
      modifies buf
      ensures Valid() && n <= buf.Length && Listed(side, pool[..], items.Get(side), buf[..n])
    {
      hide PoolOk; hide Bst; hide Rep; hide Walk; hide Listed;
      ghost var t := trees.Get(side);
      ListFits(side);
      TreeIs(side);
      WalkListed(side, pool[..], roots.Get(side), t, items.Get(side));
      assert buf[..0] == [];
      if side == Ask {
        n := CollectAsc(roots.ask, t, buf, 0);
      } else {
        n := CollectDesc(roots.bid, t, buf, 0);
      }
      assert [] + Walk(side, t) == Walk(side, t);
    }

    lemma ListFits(side: Side)
      requires Valid()
      ensures |Walk(side, trees.Get(side))| <= MAX_LEVELS
    {
      hide Rep; hide Balanced; hide Distinct; hide FreeOk; hide Slots; hide Walk; hide InOrder; hide Bst;
      hide Represents;
      WalkSize(side, trees.Get(side));
      var t, m := trees.Get(side), items.Get(side);
      BstSize(t, m);
    }

    /** level_new: a detached, empty level, or NIL when the pool is exhausted. */
    method NewLevel(price: int) returns (li: nat)
      requires pool.Length < NIL && free.Valid()
      requires var f := free.Contents(); f != [] ==> f[|f| - 1] < pool.Length
      modifies pool, free
      ensures free.Valid()
      ensures var f := old(free.Contents());
        if f == [] then li == NIL && free.Contents() == [] && pool[..] == old(pool[..])
        else
          && li == f[|f| - 1] < pool.Length
          && free.Contents() == f[..|f| - 1]
          && pool[..] == old(pool[..])[li := Level(EmptyItem(price), NIL, NIL, 1)]
    {
      li := free.Alloc();
      if li != NIL {
        pool[li] := Level(EmptyItem(price), NIL, NIL, 1);
      }
    }

    /**
     Opens the level at a new price. The pool holds twice the levels one side may have, so the allocation
     cannot fail: the result is never NIL.
     */
    method Open(side: Side, price: int) returns (li: nat)
      requires Valid() && price !in items.Get(side) && counts.Get(side) < MAX_LEVELS
      modifies this, pool, free
      ensures Valid()
      ensures li < pool.Length == LEVEL_SLOTS && li in Slots(trees.Get(side)) && pool[li].item == EmptyItem(price)
      ensures items == old(items).With(side, old(items).Get(side)[price := EmptyItem(price)])
    {
      hide PoolOk; hide Bst; hide Balanced; hide Distinct; hide Rep; hide Slots; hide AvlTree.Insert;
      ghost var t, item := trees.Get(side), EmptyItem(price);
      ghost var s, f := pool[..], free.Contents();
      OpenReady(side, s, f, roots, counts, trees, items, item);
      li := NewLevel(price);
      var r := Insert(roots.Get(side), li, t);
      OpenKeeps(side, s, f, roots, counts, trees, items, item, pool[..], r);
      RepItem(pool[..], r, AvlTree.Insert(t, li, item), li);
      roots := roots.With(side, r);
      counts := counts.With(side, counts.Get(side) + 1);
      trees := trees.With(side, AvlTree.Insert(t, li, item));
      items := items.With(side, items.Get(side)[price := item]);
    }

    /** Removes the level at price p. */
    method Close(side: Side, p: int)
      requires Valid() && p in items.Get(side)
      modifies this, pool, free, free.slots
      ensures Valid()
      ensures items == old(items).With(side, old(items).Get(side) - {p})
    {
      hide PoolOk; hide Bst; hide Balanced; hide Distinct; hide Rep; hide Slots; hide AvlTree.Remove; hide Freed;
      ghost var t := trees.Get(side);
      ghost var s, f := pool[..], free.Contents();
      SideFacts(side, s, f, roots, counts, trees, items);
      CloseReady(s, roots.Get(side), t, items.Get(side), counts.Get(side), p);
      var r := Remove(roots.Get(side), p, t);
      CloseKeeps(side, s, f, roots, counts, trees, items, p, pool[..], r);
      roots := roots.With(side, r);
      counts := counts.With(side, counts.Get(side) - 1);
      trees := trees.With(side, AvlTree.Remove(t, p));
      items := items.With(side, items.Get(side) - {p});
    }

    /** Overwrites the payload of a level, whose price stays. */
    method Put(side: Side, li: nat, item: Item)
      requires Valid() && li in Slots(trees.Get(side)) && li < pool.Length && item.price == pool[li].item.price
      modifies this, pool
      ensures Valid()
      ensures li in Slots(trees.Get(side)) && pool[li].item == item
      ensures items == old(items).With(side, old(items).Get(side)[item.price := item])
      ensures free.Contents() == old(free.Contents())
    {
      hide Bst; hide Balanced; hide Distinct; hide Rep; hide Slots; hide SideOk;
      ghost var s, t := pool[..], trees.Get(side);
      PutKeeps(side, s, free.Contents(), roots, counts, trees, items, li, item);
      SetItem(li, item);
      trees := trees.With(side, AvlTree.SetItem(t, li, item));
      items := items.With(side, items.Get(side)[item.price := item]);
    }
  }
}
