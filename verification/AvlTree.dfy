/**
 The price-level tree as a value: the shape, the pool slot and the payload of every node.
 The functions mirror the recursive routines of engine/orderbook.c; the lemmas say that they
 keep the tree ordered and balanced and that they change exactly one price.
 */
module AvlTree {
  import opened Types

  /** What a level slot carries besides its tree links. */
  datatype Item = Item(price: int, total: nat, count: nat, head: nat, tail: nat)

  datatype Tree = Leaf | Node(left: Tree, slot: nat, item: Item, right: Tree)

  function Max(a: int, b: int): int {
    if a > b then a else b
  }

  function Height(t: Tree): nat {
    match t
    case Leaf => 0
    case Node(l, _, _, r) => 1 + Max(Height(l), Height(r))
  }

  function Balance(t: Tree): int {
    match t
    case Leaf => 0
    case Node(l, _, _, r) => Height(l) - Height(r)
  }

  function Slots(t: Tree): set<nat> {
    match t
    case Leaf => {}
    case Node(l, s, _, r) => Slots(l) + {s} + Slots(r)
  }

  /** No pool slot occurs twice. */
  ghost predicate Distinct(t: Tree) {
    match t
    case Leaf => true
    case Node(l, s, _, r) =>
      Distinct(l) && Distinct(r) && Slots(l) !! Slots(r) && s !in Slots(l) && s !in Slots(r)
  }

  /** The payloads from the lowest price to the highest: the meaning of the tree. */
  function InOrder(t: Tree): seq<Item> {
    match t
    case Leaf => []
    case Node(l, _, it, r) => InOrder(l) + [it] + InOrder(r)
  }

  ghost predicate Ascending(s: seq<Item>) {
    forall i, j | 0 <= i < j < |s| :: s[i].price < s[j].price
  }

  ghost predicate Bst(t: Tree) {
    Ascending(InOrder(t))
  }

  ghost predicate Balanced(t: Tree) {
    match t
    case Leaf => true
    case Node(l, _, _, r) => Balanced(l) && Balanced(r) && -1 <= Height(l) - Height(r) <= 1
  }

  ghost predicate HasPrice(s: seq<Item>, p: int) {
    exists i | 0 <= i < |s| :: s[i].price == p
  }

  lemma HasPriceParts(a: seq<Item>, x: Item, b: seq<Item>, p: int)
    ensures HasPrice(a + [x] + b, p) <==> HasPrice(a, p) || x.price == p || HasPrice(b, p)
  {
    var s := a + [x] + b;
    assert s[|a|] == x;
    assert forall i | 0 <= i < |a| :: s[i] == a[i];
    assert forall i | 0 <= i < |b| :: s[|a| + 1 + i] == b[i];
  }

  lemma AscendingParts(a: seq<Item>, x: Item, b: seq<Item>)
    requires Ascending(a + [x] + b)
    ensures Ascending(a) && Ascending(b)
    ensures forall i | 0 <= i < |a| :: a[i].price < x.price
    ensures forall i | 0 <= i < |b| :: x.price < b[i].price
  {
    var s := a + [x] + b;
    assert forall i | 0 <= i < |a| :: s[i] == a[i];
    assert forall i | 0 <= i < |b| :: s[|a| + 1 + i] == b[i];
    assert s[|a|] == x;
  }

  // ----- rotations

  /** A rotation without the child it would lift leaves the tree alone. */
  function RotateRight(t: Tree): Tree {
    if t.Leaf? || t.left.Leaf? then t else
      var x := t.left;
      Node(x.left, x.slot, x.item, Node(x.right, t.slot, t.item, t.right))
  }

  function RotateLeft(t: Tree): Tree {
    if t.Leaf? || t.right.Leaf? then t else
      var y := t.right;
      Node(Node(t.left, t.slot, t.item, y.left), y.slot, y.item, y.right)
  }

  lemma RotateRightOrder(t: Tree)
    ensures InOrder(RotateRight(t)) == InOrder(t)
  {
    if t.Node? && t.left.Node? {
      var x := t.left;
      assert InOrder(x) + [t.item] + InOrder(t.right)
          == InOrder(x.left) + [x.item] + (InOrder(x.right) + [t.item] + InOrder(t.right));
    }
  }

  lemma RotateLeftOrder(t: Tree)
    ensures InOrder(RotateLeft(t)) == InOrder(t)
  {
    if t.Node? && t.right.Node? {
      var y := t.right;
      assert InOrder(t.left) + [t.item] + InOrder(y)
          == InOrder(t.left) + [t.item] + InOrder(y.left) + [y.item] + InOrder(y.right);
    }
  }

  lemma RotateRightSlots(t: Tree)
    requires Distinct(t)
    ensures Distinct(RotateRight(t)) && Slots(RotateRight(t)) == Slots(t)
  {
  }

  lemma RotateLeftSlots(t: Tree)
    requires Distinct(t)
    ensures Distinct(RotateLeft(t)) && Slots(RotateLeft(t)) == Slots(t)
  {
  }

  /** A single rotation repairs a left side that is two levels too tall. */
  lemma SingleRight(t: Tree)
    requires t.Node? && Balanced(t.left) && Balanced(t.right)
    requires Balance(t) == 2 && Balance(t.left) >= 0
    ensures var u := RotateRight(t);
      Balanced(u) && Height(u) == Height(t) - (if Balance(t.left) == 0 then 0 else 1)
  {
    var x := t.left;
    var y := Node(x.right, t.slot, t.item, t.right);
    assert Balanced(y) && Height(y) == 1 + Height(x.right);
  }

  lemma SingleLeft(t: Tree)
    requires t.Node? && Balanced(t.left) && Balanced(t.right)
    requires Balance(t) == -2 && Balance(t.right) <= 0
    ensures var u := RotateLeft(t);
      Balanced(u) && Height(u) == Height(t) - (if Balance(t.right) == 0 then 0 else 1)
  {
    var y := t.right;
    var x := Node(t.left, t.slot, t.item, y.left);
    assert Balanced(x) && Height(x) == 1 + Height(y.left);
  }

  lemma DoubleRight(t: Tree)
    requires t.Node? && Balanced(t.left) && Balanced(t.right)
    requires Balance(t) == 2 && Balance(t.left) < 0
    ensures var u := RotateRight(t.(left := RotateLeft(t.left)));
      Balanced(u) && Height(u) == Height(t) - 1
  {
    var x, z := t.left, t.left.right;
    var a := Node(x.left, x.slot, x.item, z.left);
    var b := Node(z.right, t.slot, t.item, t.right);
    assert RotateLeft(x) == Node(a, z.slot, z.item, z.right);
    assert Balanced(a) && Height(a) == Height(x) - 1;
    assert Balanced(b) && Height(b) == Height(x) - 1;
  }

  lemma DoubleLeft(t: Tree)
    requires t.Node? && Balanced(t.left) && Balanced(t.right)
    requires Balance(t) == -2 && Balance(t.right) > 0
    ensures var u := RotateLeft(t.(right := RotateRight(t.right)));
      Balanced(u) && Height(u) == Height(t) - 1
  {
    var y, z := t.right, t.right.left;
    var a := Node(t.left, t.slot, t.item, z.left);
    var b := Node(z.right, y.slot, y.item, y.right);
    assert RotateRight(y) == Node(z.left, z.slot, z.item, b);
    assert Balanced(a) && Height(a) == Height(y) - 1;
    assert Balanced(b) && Height(b) == Height(y) - 1;
  }

  // ----- insertion

  /** The four rebalancing cases after an insertion of price p, told apart by comparing prices. */
  function FixInsert(t: Tree, p: int): Tree
    requires t.Node?
  {
    var bal := Balance(t);
    if bal > 1 && p < t.left.item.price then RotateRight(t)
    else if bal < -1 && p > t.right.item.price then RotateLeft(t)
    else if bal > 1 && p > t.left.item.price then RotateRight(t.(left := RotateLeft(t.left)))
    else if bal < -1 && p < t.right.item.price then RotateLeft(t.(right := RotateRight(t.right)))
    else t
  }

  function Insert(t: Tree, slot: nat, item: Item): Tree {
    match t
    case Leaf => Node(Leaf, slot, item, Leaf)
    case Node(l, s, it, r) =>
      if item.price < it.price then FixInsert(Node(Insert(l, slot, item), s, it, r), item.price)
      else if item.price > it.price then FixInsert(Node(l, s, it, Insert(r, slot, item)), item.price)
      else t
  }

  lemma FixInsertOrder(t: Tree, p: int)
    requires t.Node?
    ensures InOrder(FixInsert(t, p)) == InOrder(t)
  {
    RotateRightOrder(t);
    RotateLeftOrder(t);
    RotateLeftOrder(t.left);
    RotateRightOrder(t.(left := RotateLeft(t.left)));
    RotateRightOrder(t.right);
    RotateLeftOrder(t.(right := RotateRight(t.right)));
  }

  lemma FixInsertSlots(t: Tree, p: int)
    requires t.Node? && Distinct(t)
    ensures Distinct(FixInsert(t, p)) && Slots(FixInsert(t, p)) == Slots(t)
  {
    RotateRightSlots(t);
    RotateLeftSlots(t);
    RotateLeftSlots(t.left);
    RotateRightSlots(t.(left := RotateLeft(t.left)));
    RotateRightSlots(t.right);
    RotateLeftSlots(t.(right := RotateRight(t.right)));
  }

  /** x sits at position k of s between the lower and the higher prices. */
  ghost predicate Splits(s: seq<Item>, k: nat, p: int) {
    && k <= |s|
    && (forall i | 0 <= i < k :: s[i].price < p)
    && (forall i | k <= i < |s| :: p < s[i].price)
  }

  function InsertAt<T>(s: seq<T>, k: nat, x: T): seq<T>
    requires k <= |s|
  {
    s[..k] + [x] + s[k..]
  }

  lemma InsertAtAscending(s: seq<Item>, k: nat, x: Item)
    requires Ascending(s) && Splits(s, k, x.price)
    ensures Ascending(InsertAt(s, k, x))
  {
  }

  /** An insertion into the part below x is an insertion into the whole, at the same place. */
  lemma InsertAtLeft(a: seq<Item>, x: Item, b: seq<Item>, k: nat, y: Item)
    requires Ascending(a + [x] + b) && Splits(a, k, y.price) && y.price < x.price
    ensures Splits(a + [x] + b, k, y.price)
    ensures InsertAt(a, k, y) + [x] + b == InsertAt(a + [x] + b, k, y)
  {
    var s := a + [x] + b;
    AscendingParts(a, x, b);
    assert s[..k] == a[..k];
    assert s[k..] == a[k..] + [x] + b;
  }

  lemma InsertAtRight(a: seq<Item>, x: Item, b: seq<Item>, k: nat, y: Item)
    requires Ascending(a + [x] + b) && Splits(b, k, y.price) && x.price < y.price
    ensures Splits(a + [x] + b, |a| + 1 + k, y.price)
    ensures a + [x] + InsertAt(b, k, y) == InsertAt(a + [x] + b, |a| + 1 + k, y)
  {
    var s := a + [x] + b;
    AscendingParts(a, x, b);
    assert s[..|a| + 1 + k] == a + [x] + b[..k];
    assert s[|a| + 1 + k..] == b[k..];
  }

  lemma {:induction false} InsertSlots(t: Tree, slot: nat, item: Item)
    requires Distinct(t) && slot !in Slots(t) && !HasPrice(InOrder(t), item.price)
    ensures Distinct(Insert(t, slot, item)) && Slots(Insert(t, slot, item)) == Slots(t) + {slot}
  {
    match t
    case Leaf =>
    case Node(l, s, it, r) =>
      HasPriceParts(InOrder(l), it, InOrder(r), item.price);
      if item.price < it.price {
        InsertSlots(l, slot, item);
        FixInsertSlots(Node(Insert(l, slot, item), s, it, r), item.price);
      } else {
        InsertSlots(r, slot, item);
        FixInsertSlots(Node(l, s, it, Insert(r, slot, item)), item.price);
      }
  }

  /** A new price enters the in-order sequence at one position k and nothing else moves. */
  lemma {:induction false} InsertContents(t: Tree, slot: nat, item: Item) returns (k: nat)
    requires Bst(t) && !HasPrice(InOrder(t), item.price)
    ensures Splits(InOrder(t), k, item.price)
    ensures InOrder(Insert(t, slot, item)) == InsertAt(InOrder(t), k, item)
  {
    match t
    case Leaf =>
      k := 0;
    case Node(l, s, it, r) =>
      var a, b := InOrder(l), InOrder(r);
      AscendingParts(a, it, b);
      HasPriceParts(a, it, b, item.price);
      if item.price < it.price {
        k := InsertContents(l, slot, item);
        FixInsertOrder(Node(Insert(l, slot, item), s, it, r), item.price);
        InsertAtLeft(a, it, b, k, item);
      } else {
        k := InsertContents(r, slot, item);
        FixInsertOrder(Node(l, s, it, Insert(r, slot, item)), item.price);
        InsertAtRight(a, it, b, k, item);
        k := |a| + 1 + k;
      }
  }

  /**
   The side of u that holds the new price p is the taller one: the code picks its rotation by comparing
   prices, so it relies on this whenever an insertion made a non-empty subtree grow.
   */
  ghost predicate LeansTo(u: Tree, p: int) {
    u.Node? && p != u.item.price && Balance(u) == if p < u.item.price then 1 else -1
  }

  lemma FixInsertLeft(t: Tree, p: int)
    requires t.Node? && Balanced(t.left) && Balanced(t.right) && t.left.Node? && p < t.item.price
    requires 0 <= Balance(t) <= 1 || (Balance(t) == 2 && LeansTo(t.left, p)) || Balance(t) == -1
    ensures var u := FixInsert(t, p);
      Balanced(u) && Height(u) == (if Balance(t) == 2 then Height(t) - 1 else Height(t))
  {
    if Balance(t) == 2 {
      if p < t.left.item.price {
        SingleRight(t);
      } else {
        DoubleRight(t);
      }
    }
  }

  lemma FixInsertRight(t: Tree, p: int)
    requires t.Node? && Balanced(t.left) && Balanced(t.right) && t.right.Node? && p > t.item.price
    requires -1 <= Balance(t) <= 1 || (Balance(t) == -2 && LeansTo(t.right, p))
    ensures var u := FixInsert(t, p);
      Balanced(u) && Height(u) == (if Balance(t) == -2 then Height(t) - 1 else Height(t))
  {
    if Balance(t) == -2 {
      if p > t.right.item.price {
        SingleLeft(t);
      } else {
        DoubleLeft(t);
      }
    }
  }

  lemma NewPriceBelow(t: Tree, p: int)
    requires t.Node? && Bst(t) && !HasPrice(InOrder(t), p)
    ensures p != t.item.price
    ensures Bst(t.left) && !HasPrice(InOrder(t.left), p)
    ensures Bst(t.right) && !HasPrice(InOrder(t.right), p)
  {
    AscendingParts(InOrder(t.left), t.item, InOrder(t.right));
    HasPriceParts(InOrder(t.left), t.item, InOrder(t.right), p);
  }

  /** An insertion keeps the balance and makes the tree at most one level taller. */
  lemma {:induction false} InsertBalanced(t: Tree, slot: nat, item: Item)
    requires Bst(t) && Balanced(t) && !HasPrice(InOrder(t), item.price)
    ensures var u := Insert(t, slot, item);
      && u.Node? && Balanced(u)
      && Height(t) <= Height(u) <= Height(t) + 1
      && (t.Node? && Height(u) > Height(t) ==> LeansTo(u, item.price))
  {
    match t
    case Leaf =>
    case Node(l, s, it, r) =>
      NewPriceBelow(t, item.price);
      if item.price < it.price {
        InsertBalanced(l, slot, item);
        FixInsertLeft(Node(Insert(l, slot, item), s, it, r), item.price);
      } else {
        InsertBalanced(r, slot, item);
        FixInsertRight(Node(l, s, it, Insert(r, slot, item)), item.price);
      }
  }

  lemma {:induction false} InsertDuplicate(t: Tree, slot: nat, item: Item)
    requires Bst(t) && Balanced(t) && HasPrice(InOrder(t), item.price)
    ensures Insert(t, slot, item) == t
  {
    AscendingParts(InOrder(t.left), t.item, InOrder(t.right));
    HasPriceParts(InOrder(t.left), t.item, InOrder(t.right), item.price);
    if item.price < t.item.price {
      InsertDuplicate(t.left, slot, item);
    } else if item.price > t.item.price {
      InsertDuplicate(t.right, slot, item);
    }
  }

  // ----- removal

  function MinItem(t: Tree): Item
    requires t.Node?
  {
    if t.left.Leaf? then t.item else MinItem(t.left)
  }

  function MinSlot(t: Tree): nat
    requires t.Node?
  {
    if t.left.Leaf? then t.slot else MinSlot(t.left)
  }

  function MaxItem(t: Tree): Item
    requires t.Node?
  {
    if t.right.Leaf? then t.item else MaxItem(t.right)
  }

  function MaxSlot(t: Tree): nat
    requires t.Node?
  {
    if t.right.Leaf? then t.slot else MaxSlot(t.right)
  }

  lemma {:induction false} MaxItemLast(t: Tree)
    requires t.Node?
    ensures |InOrder(t)| > 0 && InOrder(t)[|InOrder(t)| - 1] == MaxItem(t)
  {
    if t.right.Node? {
      MaxItemLast(t.right);
    }
  }

  lemma {:induction false} MinItemFirst(t: Tree)
    requires t.Node?
    ensures |InOrder(t)| > 0 && InOrder(t)[0] == MinItem(t)
  {
    if t.left.Node? {
      MinItemFirst(t.left);
    }
  }

  function FixRemove(t: Tree): Tree
    requires t.Node?
  {
    var bal := Balance(t);
    if bal > 1 && Balance(t.left) >= 0 then RotateRight(t)
    else if bal > 1 then RotateRight(t.(left := RotateLeft(t.left)))
    else if bal < -1 && Balance(t.right) <= 0 then RotateLeft(t)
    else if bal < -1 then RotateLeft(t.(right := RotateRight(t.right)))
    else t
  }

  /** Deleting a node with two children moves its successor's payload into the node's own slot. */
  function Remove(t: Tree, p: int): Tree {
    match t
    case Leaf => Leaf
    case Node(l, s, it, r) =>
      if p < it.price then FixRemove(Node(Remove(l, p), s, it, r))
      else if p > it.price then FixRemove(Node(l, s, it, Remove(r, p)))
      else if l.Leaf? || r.Leaf? then if l.Node? then l else r
      else FixRemove(Node(l, s, MinItem(r), Remove(r, MinItem(r).price)))
  }

  /** The slot that a removal gives back, if any: with two children, not the slot that held the price. */
  function Freed(t: Tree, p: int): seq<nat> {
    match t
    case Leaf => []
    case Node(l, s, it, r) =>
      if p < it.price then Freed(l, p)
      else if p > it.price then Freed(r, p)
      else if l.Leaf? || r.Leaf? then [s]
      else Freed(r, MinItem(r).price)
  }

  lemma FixRemoveOrder(t: Tree)
    requires t.Node?
    ensures InOrder(FixRemove(t)) == InOrder(t)
  {
    RotateRightOrder(t);
    RotateLeftOrder(t);
    RotateLeftOrder(t.left);
    RotateRightOrder(t.(left := RotateLeft(t.left)));
    RotateRightOrder(t.right);
    RotateLeftOrder(t.(right := RotateRight(t.right)));
  }

  lemma FixRemoveSlots(t: Tree)
    requires t.Node? && Distinct(t)
    ensures Distinct(FixRemove(t)) && Slots(FixRemove(t)) == Slots(t)
  {
    RotateRightSlots(t);
    RotateLeftSlots(t);
    RotateLeftSlots(t.left);
    RotateRightSlots(t.(left := RotateLeft(t.left)));
    RotateRightSlots(t.right);
    RotateLeftSlots(t.(right := RotateRight(t.right)));
  }

  lemma RemoveAtParts<T>(a: seq<T>, x: T, b: seq<T>, k: nat)
    ensures k < |a| ==> RemoveAt(a + [x] + b, k) == RemoveAt(a, k) + [x] + b
    ensures RemoveAt(a + [x] + b, |a|) == a + b
    ensures k < |b| ==> RemoveAt(a + [x] + b, |a| + 1 + k) == a + [x] + RemoveAt(b, k)
  {
    var s := a + [x] + b;
    if k < |a| {
      assert s[..k] == a[..k];
      assert s[k + 1..] == a[k + 1..] + [x] + b;
    }
    if k < |b| {
      assert s[..|a| + 1 + k] == a + [x] + b[..k];
      assert s[|a| + 1 + k + 1..] == b[k + 1..];
    }
  }

  /** Removing the lowest price drops the first element. */
  lemma {:induction false} RemoveMin(t: Tree)
    requires t.Node? && Bst(t)
    ensures InOrder(t) != [] && InOrder(t)[0] == MinItem(t)
    ensures InOrder(Remove(t, MinItem(t).price)) == InOrder(t)[1..]
  {
    var Node(l, s, it, r) := t;
    AscendingParts(InOrder(l), it, InOrder(r));
    if l.Node? {
      RemoveMin(l);
      FixRemoveOrder(Node(Remove(l, MinItem(l).price), s, it, r));
    }
  }

  /** A removal step, on the in-order sequences. */
  lemma RemoveOrder(t: Tree, p: int)
    requires t.Node?
    ensures var l, it, r := t.left, t.item, t.right;
      InOrder(Remove(t, p)) ==
        if p < it.price then InOrder(Remove(l, p)) + [it] + InOrder(r)
        else if p > it.price then InOrder(l) + [it] + InOrder(Remove(r, p))
        else if l.Leaf? || r.Leaf? then InOrder(l) + InOrder(r)
        else InOrder(l) + [MinItem(r)] + InOrder(Remove(r, MinItem(r).price))
  {
    hide FixRemove; hide MinItem;
    var Node(l, s, it, r) := t;
    if p < it.price {
      FixRemoveOrder(Node(Remove(l, p), s, it, r));
    } else if p > it.price {
      FixRemoveOrder(Node(l, s, it, Remove(r, p)));
    } else if l.Leaf? || r.Leaf? {
      assert [] + InOrder(r) == InOrder(r) && InOrder(l) + [] == InOrder(l);
    } else {
      FixRemoveOrder(Node(l, s, MinItem(r), Remove(r, MinItem(r).price)));
    }
  }

  lemma NodeOrder(t: Tree)
    requires t.Node?
    ensures InOrder(t) == InOrder(t.left) + [t.item] + InOrder(t.right)
  {
  }

  lemma ChildrenBst(t: Tree)
    requires t.Node? && Bst(t)
    ensures Bst(t.left) && Bst(t.right)
  {
    AscendingParts(InOrder(t.left), t.item, InOrder(t.right));
  }

  lemma SuccessorMoves<T>(a: seq<T>, b: seq<T>)
    requires b != []
    ensures a + [b[0]] + b[1..] == a + b
  {
  }

  /** Removing the root's price drops the root's payload. */
  lemma RemoveFound(t: Tree)
    requires t.Node? && Bst(t)
    ensures InOrder(Remove(t, t.item.price)) == RemoveAt(InOrder(t), |InOrder(t.left)|)
  {
    hide InOrder; hide Bst; hide Remove; hide MinItem; hide RemoveAt;
    var Node(l, s, it, r) := t;
    NodeOrder(t);
    RemoveOrder(t, it.price);
    RemoveAtParts(InOrder(l), it, InOrder(r), 0);
    if l.Node? && r.Node? {
      ChildrenBst(t);
      RemoveMin(r);
      SuccessorMoves(InOrder(l), InOrder(r));
    }
  }

  /** The removed price leaves the in-order sequence and nothing else moves. */
  lemma {:induction false} RemoveContents(t: Tree, p: int) returns (k: nat)
    requires Bst(t) && HasPrice(InOrder(t), p)
    ensures k < |InOrder(t)| && InOrder(t)[k].price == p
    ensures InOrder(Remove(t, p)) == RemoveAt(InOrder(t), k)
  {
    hide Remove; hide RemoveAt; hide MinItem;
    NotLeaf(t, p);
    var Node(l, s, it, r) := t;
    var a, b := InOrder(l), InOrder(r);
    AscendingParts(a, it, b);
    HasPriceParts(a, it, b, p);
    HasPriceBounds(a, b, it, p);
    hide HasPrice; hide Ascending;
    RemoveOrder(t, p);
    if p < it.price {
      k := RemoveContents(l, p);
      RemoveAtParts(a, it, b, k);
    } else if p > it.price {
      k := RemoveContents(r, p);
      RemoveAtParts(a, it, b, k);
      k := |a| + 1 + k;
    } else {
      k := |a|;
      RemoveFound(t);
    }
  }

  lemma NotLeaf(t: Tree, p: int)
    requires HasPrice(InOrder(t), p)
    ensures t.Node?
  {
  }

  lemma HasPriceBounds(a: seq<Item>, b: seq<Item>, x: Item, p: int)
    requires forall i | 0 <= i < |a| :: a[i].price < x.price
    requires forall i | 0 <= i < |b| :: x.price < b[i].price
    ensures p >= x.price ==> !HasPrice(a, p)
    ensures p <= x.price ==> !HasPrice(b, p)
  {
  }

  /** Where in a search tree a price can stand. */
  lemma WhichSide(t: Tree, p: int)
    requires Bst(t)
    ensures t.Leaf? ==> !HasPrice(InOrder(t), p)
    ensures t.Node? ==> Bst(t.left) && Bst(t.right)
    ensures t.Node? && p < t.item.price ==> HasPrice(InOrder(t), p) == HasPrice(InOrder(t.left), p)
    ensures t.Node? && p > t.item.price ==> HasPrice(InOrder(t), p) == HasPrice(InOrder(t.right), p)
    ensures t.Node? && p == t.item.price ==> HasPrice(InOrder(t), p)
  {
    if t.Node? {
      var a, b := InOrder(t.left), InOrder(t.right);
      AscendingParts(a, t.item, b);
      HasPriceParts(a, t.item, b, p);
      HasPriceBounds(a, b, t.item, p);
    }
  }

  lemma MinHasPrice(t: Tree)
    requires t.Node?
    ensures HasPrice(InOrder(t), MinItem(t).price)
  {
    hide InOrder; hide MinItem;
    MinItemFirst(t);
  }

  /** A removal gives back exactly one slot of the tree when the price is there, and none otherwise. */
  lemma {:induction false} RemoveSlots(t: Tree, p: int)
    requires Bst(t) && Distinct(t)
    ensures |Freed(t, p)| == if HasPrice(InOrder(t), p) then 1 else 0
    ensures forall s | s in Freed(t, p) :: s in Slots(t)
    ensures Distinct(Remove(t, p)) && Slots(Remove(t, p)) == Slots(t) - (set s | s in Freed(t, p))
  {
    hide FixRemove; hide HasPrice; hide MinItem; hide InOrder; hide Bst;
    WhichSide(t, p);
    match t
    case Leaf =>
    case Node(l, s, it, r) =>
      if p < it.price {
        RemoveSlots(l, p);
        FixRemoveSlots(Node(Remove(l, p), s, it, r));
      } else if p > it.price {
        RemoveSlots(r, p);
        FixRemoveSlots(Node(l, s, it, Remove(r, p)));
      } else if l.Node? && r.Node? {
        MinHasPrice(r);
        var m := MinItem(r);
        RemoveSlots(r, m.price);
        FixRemoveSlots(Node(l, s, m, Remove(r, m.price)));
      }
  }

  lemma RemoveOne(t: Tree, p: int)
    requires Bst(t) && Distinct(t) && HasPrice(InOrder(t), p)
    ensures |Freed(t, p)| == 1 && Freed(t, p)[0] in Slots(t)
    ensures Distinct(Remove(t, p)) && Slots(Remove(t, p)) == Slots(t) - {Freed(t, p)[0]}
  {
    hide Bst; hide HasPrice; hide Distinct; hide Freed; hide Remove;
    RemoveSlots(t, p);
  }

  lemma FixRemoveBalanced(t: Tree)
    requires t.Node? && Balanced(t.left) && Balanced(t.right) && -2 <= Balance(t) <= 2
    ensures Balanced(FixRemove(t))
    ensures Height(t) - 1 <= Height(FixRemove(t)) <= Height(t)
    ensures -1 <= Balance(t) <= 1 ==> FixRemove(t) == t
  {
    if Balance(t) == 2 {
      if Balance(t.left) >= 0 {
        SingleRight(t);
      } else {
        DoubleRight(t);
      }
    } else if Balance(t) == -2 {
      if Balance(t.right) <= 0 {
        SingleLeft(t);
      } else {
        DoubleLeft(t);
      }
    }
  }

  /** Rebalancing after one side of a balanced tree lost at most one level. */
  lemma FixShrunk(t: Tree, u: Tree)
    requires t.Node? && Balanced(t) && u.Node? && Balanced(u.left) && Balanced(u.right)
    requires Height(t.left) - 1 <= Height(u.left) <= Height(t.left)
    requires Height(t.right) - 1 <= Height(u.right) <= Height(t.right)
    requires Height(u.left) == Height(t.left) || Height(u.right) == Height(t.right)
    ensures Balanced(FixRemove(u))
    ensures Height(t) - 1 <= Height(FixRemove(u)) <= Height(t)
  {
    FixRemoveBalanced(u);
  }

  lemma {:induction false} RemoveBalanced(t: Tree, p: int)
    requires Balanced(t)
    ensures Balanced(Remove(t, p))
    ensures Height(t) - 1 <= Height(Remove(t, p)) <= Height(t)
  {
    match t
    case Leaf =>
    case Node(l, s, it, r) =>
      if p < it.price {
        RemoveBalanced(l, p);
        FixShrunk(t, Node(Remove(l, p), s, it, r));
      } else if p > it.price {
        RemoveBalanced(r, p);
        FixShrunk(t, Node(l, s, it, Remove(r, p)));
      } else if l.Node? && r.Node? {
        RemoveBalanced(r, MinItem(r).price);
        FixShrunk(t, Node(l, s, MinItem(r), Remove(r, MinItem(r).price)));
      }
  }

  // ----- reading and overwriting the payload of one slot

  function ItemAt(t: Tree, s: nat): Item
    requires s in Slots(t)
  {
    if s == t.slot then t.item else if s in Slots(t.left) then ItemAt(t.left, s) else ItemAt(t.right, s)
  }

  function SetItem(t: Tree, s: nat, item: Item): Tree {
    match t
    case Leaf => Leaf
    case Node(l, s', it, r) =>
      if s == s' then t.(item := item) else Node(SetItem(l, s, item), s', it, SetItem(r, s, item))
  }

  lemma {:induction false} SetItemAbsent(t: Tree, s: nat, item: Item)
    requires s !in Slots(t)
    ensures SetItem(t, s, item) == t
  {
    if t.Node? {
      SetItemAbsent(t.left, s, item);
      SetItemAbsent(t.right, s, item);
    }
  }

  lemma {:induction false} SetItemHeight(t: Tree, s: nat, item: Item)
    ensures Height(SetItem(t, s, item)) == Height(t)
  {
    if t.Node? {
      SetItemHeight(t.left, s, item);
      SetItemHeight(t.right, s, item);
    }
  }

  lemma {:induction false} SlotsSetItem(t: Tree, s: nat, item: Item)
    ensures Slots(SetItem(t, s, item)) == Slots(t)
  {
    if t.Node? {
      SlotsSetItem(t.left, s, item);
      SlotsSetItem(t.right, s, item);
    }
  }

  /** A slot occurs once, so writing it changes the root or one child. */
  lemma SetItemAbsentBelow(t: Tree, s: nat, item: Item)
    requires t.Node? && Distinct(t)
    ensures s == t.slot ==> SetItem(t.left, s, item) == t.left && SetItem(t.right, s, item) == t.right
  {
    if s == t.slot {
      SetItemAbsent(t.left, s, item);
      SetItemAbsent(t.right, s, item);
    }
  }

  lemma {:induction false} SetItemShape(t: Tree, s: nat, item: Item)
    requires Distinct(t) && Balanced(t)
    ensures var u := SetItem(t, s, item);
      Distinct(u) && Balanced(u) && Slots(u) == Slots(t) && Height(u) == Height(t)
  {
    if t.Node? {
      SetItemShape(t.left, s, item);
      SetItemShape(t.right, s, item);
    }
  }

  /** Overwriting a slot's payload changes one element of the in-order sequence. */
  lemma {:induction false} SetItemOrder(t: Tree, s: nat, item: Item) returns (k: nat)
    requires Distinct(t) && s in Slots(t)
    ensures k < |InOrder(t)| && InOrder(t)[k] == ItemAt(t, s)
    ensures InOrder(SetItem(t, s, item)) == InOrder(t)[k := item]
  {
    var Node(l, s', it, r) := t;
    if s == s' {
      k := |InOrder(l)|;
    } else if s in Slots(l) {
      k := SetItemOrder(l, s, item);
      SetItemAbsent(r, s, item);
    } else {
      k := SetItemOrder(r, s, item);
      SetItemAbsent(l, s, item);
      k := |InOrder(l)| + 1 + k;
    }
  }

  lemma RotateItemAt(t: Tree, s: nat)
    requires Distinct(t) && s in Slots(t)
    ensures s in Slots(RotateRight(t)) && ItemAt(RotateRight(t), s) == ItemAt(t, s)
    ensures s in Slots(RotateLeft(t)) && ItemAt(RotateLeft(t), s) == ItemAt(t, s)
  {
    RotateRightSlots(t);
    RotateLeftSlots(t);
  }

  lemma FixInsertItemAt(t: Tree, p: int, s: nat)
    requires t.Node? && Distinct(t) && s in Slots(t)
    ensures s in Slots(FixInsert(t, p)) && ItemAt(FixInsert(t, p), s) == ItemAt(t, s)
  {
    FixInsertSlots(t, p);
    RotateItemAt(t, s);
    var bal := Balance(t);
    if bal > 1 && p > t.left.item.price {
      RotateLeftSlots(t.left);
      if s in Slots(t.left) {
        RotateItemAt(t.left, s);
      }
      RotateItemAt(t.(left := RotateLeft(t.left)), s);
    } else if bal < -1 && p < t.right.item.price {
      RotateRightSlots(t.right);
      if s in Slots(t.right) {
        RotateItemAt(t.right, s);
      }
      RotateItemAt(t.(right := RotateRight(t.right)), s);
    }
  }

  lemma {:induction false} InsertItemAt(t: Tree, slot: nat, item: Item)
    requires Bst(t) && Distinct(t) && slot !in Slots(t) && !HasPrice(InOrder(t), item.price)
    ensures slot in Slots(Insert(t, slot, item)) && ItemAt(Insert(t, slot, item), slot) == item
  {
    match t
    case Leaf =>
    case Node(l, s, it, r) =>
      NewPriceBelow(t, item.price);
      if item.price < it.price {
        InsertItemAt(l, slot, item);
        InsertSlots(l, slot, item);
        FixInsertItemAt(Node(Insert(l, slot, item), s, it, r), item.price, slot);
      } else {
        InsertItemAt(r, slot, item);
        InsertSlots(r, slot, item);
        FixInsertItemAt(Node(l, s, it, Insert(r, slot, item)), item.price, slot);
      }
  }

  // ----- the tree as a finite map from price to payload

  /** m maps every price of s to its payload and nothing else. */
  ghost predicate Represents(m: map<int, Item>, s: seq<Item>) {
    && (forall i | 0 <= i < |s| :: s[i].price in m && m[s[i].price] == s[i])
    && (forall p | p in m :: HasPrice(s, p))
  }

  lemma AbsentPrice(m: map<int, Item>, s: seq<Item>, p: int)
    requires Represents(m, s)
    ensures p in m <==> HasPrice(s, p)
  {
  }

  lemma RepresentsInsert(m: map<int, Item>, s: seq<Item>, k: nat, x: Item)
    requires Represents(m, s) && k <= |s| && !HasPrice(s, x.price)
    ensures x.price !in m && Represents(m[x.price := x], InsertAt(s, k, x))
  {
    var s', m' := InsertAt(s, k, x), m[x.price := x];
    assert s'[k] == x;
    forall p | p in m'
      ensures HasPrice(s', p)
    {
      if p != x.price {
        var i :| 0 <= i < |s| && s[i].price == p;
        assert s'[if i < k then i else i + 1] == s[i];
      }
    }
  }

  lemma RepresentsRemove(m: map<int, Item>, s: seq<Item>, k: nat)
    requires Represents(m, s) && Ascending(s) && k < |s|
    ensures Represents(m - {s[k].price}, RemoveAt(s, k))
  {
    var s', m' := RemoveAt(s, k), m - {s[k].price};
    assert forall i | 0 <= i < |s'| :: s'[i] == s[if i < k then i else i + 1];
    forall p | p in m'
      ensures HasPrice(s', p)
    {
      var i :| 0 <= i < |s| && s[i].price == p;
      assert s'[if i < k then i else i - 1] == s[i];
    }
  }

  lemma RemoveAtAscending(s: seq<Item>, k: nat)
    requires Ascending(s) && k < |s|
    ensures Ascending(RemoveAt(s, k))
  {
  }

  lemma RepresentsUpdate(m: map<int, Item>, s: seq<Item>, k: nat, x: Item)
    requires Represents(m, s) && Ascending(s) && k < |s| && s[k].price == x.price
    ensures Represents(m[x.price := x], s[k := x]) && Ascending(s[k := x])
  {
    var s', m' := s[k := x], m[x.price := x];
    forall p | p in m'
      ensures HasPrice(s', p)
    {
      var i :| 0 <= i < |s| && s[i].price == p;
      assert s'[i].price == p;
    }
  }

  /** The subtree whose root holds price p. */
  function Search(t: Tree, p: int): Tree {
    match t
    case Leaf => Leaf
    case Node(l, _, it, r) => if p < it.price then Search(l, p) else if p > it.price then Search(r, p) else t
  }

  lemma {:induction false} SearchFinds(t: Tree, p: int) returns (k: nat)
    requires Bst(t)
    ensures Search(t, p).Node? <==> HasPrice(InOrder(t), p)
    ensures var u := Search(t, p);
      u.Node? ==> u.item.price == p && u.slot in Slots(t) && k < |InOrder(t)| && InOrder(t)[k] == u.item
  {
    match t
    case Leaf =>
      k := 0;
    case Node(l, s, it, r) =>
      AscendingParts(InOrder(l), it, InOrder(r));
      HasPriceParts(InOrder(l), it, InOrder(r), p);
      k := |InOrder(l)|;
      if p < it.price {
        k := SearchFinds(l, p);
      } else if p > it.price {
        k := SearchFinds(r, p);
        k := |InOrder(l)| + 1 + k;
      }
  }

  lemma SearchMap(t: Tree, p: int, m: map<int, Item>)
    requires Bst(t) && Represents(m, InOrder(t))
    ensures Search(t, p).Node? <==> p in m
    ensures p in m ==> Search(t, p).slot in Slots(t) && Search(t, p).item == m[p]
  {
    var k := SearchFinds(t, p);
  }

  lemma EmptyMap(m: map<int, Item>, s: seq<Item>)
    requires Represents(m, s) && s == []
    ensures m == map[]
  {
    forall p: int {:trigger p in m}
      ensures p !in m
    {
      AbsentPrice(m, s, p);
    }
    assert m == map[];
  }

  lemma MinLowest(t: Tree, m: map<int, Item>)
    requires Bst(t) && Represents(m, InOrder(t))
    ensures t.Leaf? <==> m == map[]
    ensures t.Node? ==> MinSlot(t) in Slots(t)
    ensures t.Node? ==> var it := MinItem(t);
      it.price in m && m[it.price] == it && forall p | p in m :: it.price <= p
  {
    if t.Node? {
      MinItemFirst(t);
      MinSlotIn(t);
      assert InOrder(t)[0].price in m;
    } else {
      EmptyMap(m, InOrder(t));
    }
  }

  lemma MaxHighest(t: Tree, m: map<int, Item>)
    requires Bst(t) && Represents(m, InOrder(t))
    ensures t.Leaf? <==> m == map[]
    ensures t.Node? ==> MaxSlot(t) in Slots(t)
    ensures t.Node? ==> var it := MaxItem(t);
      it.price in m && m[it.price] == it && forall p | p in m :: p <= it.price
  {
    if t.Node? {
      MaxItemLast(t);
      MaxSlotIn(t);
      assert InOrder(t)[|InOrder(t)| - 1].price in m;
    } else {
      EmptyMap(m, InOrder(t));
    }
  }

  lemma {:induction false} MinSlotIn(t: Tree)
    requires t.Node?
    ensures MinSlot(t) in Slots(t)
  {
    if t.left.Node? {
      MinSlotIn(t.left);
    }
  }

  lemma {:induction false} MaxSlotIn(t: Tree)
    requires t.Node?
    ensures MaxSlot(t) in Slots(t)
  {
    if t.right.Node? {
      MaxSlotIn(t.right);
    }
  }

  /** A balanced tree with at most 256 nodes is at most 11 levels high. */
  function MinNodes(h: nat): nat {
    if h < 2 then h else 1 + MinNodes(h - 1) + MinNodes(h - 2)
  }

  lemma {:induction false} MinNodesMonotone(a: nat, b: nat)
    requires a <= b
    ensures MinNodes(a) <= MinNodes(b)
    decreases b
  {
    if a < b {
      MinNodesMonotone(a, b - 1);
      if b >= 2 {
        assert MinNodes(b) == 1 + MinNodes(b - 1) + MinNodes(b - 2);
      }
    }
  }

  lemma {:induction false} BalancedSize(t: Tree)
    requires Balanced(t)
    ensures |InOrder(t)| >= MinNodes(Height(t))
  {
    if t.Node? {
      BalancedSize(t.left);
      BalancedSize(t.right);
      var h := Height(t);
      if h >= 2 {
        MinNodesMonotone(h - 2, Height(t.left));
        MinNodesMonotone(h - 2, Height(t.right));
      }
    }
  }

  lemma HeightBound(t: Tree)
    requires Balanced(t) && |InOrder(t)| <= 256
    ensures Height(t) <= 11
  {
    BalancedSize(t);
    assert MinNodes(12) == 376;
    if Height(t) >= 12 {
      MinNodesMonotone(12, Height(t));
    }
  }

  // ----- the walks that list a side best first

  /** The slots best price first: in order for asks, in reverse for bids. */
  function Walk(side: Side, t: Tree): seq<nat> {
    match t
    case Leaf => []
    case Node(l, s, _, r) =>
      if side == Ask then Walk(side, l) + [s] + Walk(side, r) else Walk(side, r) + [s] + Walk(side, l)
  }

  /** The i-th slot of a walk holds the i-th payload, counted from the end that matches first. */
  lemma {:induction false} WalkItems(side: Side, t: Tree, i: nat)
    requires i < |Walk(side, t)|
    ensures |Walk(side, t)| == |InOrder(t)|
    ensures ItemOfSlot(t, Walk(side, t)[i], InOrder(t)[if side == Ask then i else |InOrder(t)| - 1 - i])
    decreases t
  {
    WalkSize(side, t);
    WalkSize(side, t.left);
    WalkSize(side, t.right);
    var first, last := if side == Ask then t.left else t.right, if side == Ask then t.right else t.left;
    if i < |Walk(side, first)| {
      WalkItems(side, first, i);
    } else if i > |Walk(side, first)| {
      WalkItems(side, last, i - |Walk(side, first)| - 1);
    }
  }

  lemma {:induction false} WalkSize(side: Side, t: Tree)
    ensures |Walk(side, t)| == |InOrder(t)|
  {
    if t.Node? {
      WalkSize(side, t.left);
      WalkSize(side, t.right);
    }
  }

  /** Some node of t has this slot and this payload. */
  ghost predicate ItemOfSlot(t: Tree, slot: nat, it: Item) {
    t.Node? && ((t.slot == slot && t.item == it) || ItemOfSlot(t.left, slot, it) || ItemOfSlot(t.right, slot, it))
  }
}
