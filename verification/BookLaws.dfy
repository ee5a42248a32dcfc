/** Invariants of the book over whole runs, and what cancelling and amending undo, proved on BookSpec. */
module BookLaws {
  import opened Arith
  import opened Types
  import opened PriceTime
  import opened BookSpec
  import opened MatchLaws

  // ----- what holds of every reachable book

  ghost predicate DistinctIds(s: seq<Rest>) {
    forall i, j | 0 <= i < j < |s| :: s[i].id != s[j].id
  }

  /** Every order has a valid price, something left, and an id that has been issued. */
  ghost predicate Sound(s: seq<Rest>, nextId: nat) {
    forall i | 0 <= i < |s| :: s[i].price > 0 && 0 < s[i].qty && 0 < s[i].id < nextId
  }

  ghost predicate SideOk(side: Side, s: seq<Rest>, nextId: nat) {
    Ranked(side, s) && Sound(s, nextId) && DistinctIds(s) && |Prices(s)| <= MAX_LEVELS
  }

  ghost predicate Apart(a: seq<Rest>, b: seq<Rest>) {
    forall i, j | 0 <= i < |a| && 0 <= j < |b| :: a[i].id != b[j].id
  }

  ghost predicate WellFormed(b: Lob) {
    && SideOk(Bid, b.sides.bid, b.nextId) && SideOk(Ask, b.sides.ask, b.nextId)
    && Apart(b.sides.bid, b.sides.ask)
    && Count(b) <= MAX_ORDERS && 0 < b.nextId
  }

  /** The best bid is below the best ask. */
  predicate Uncrossed(b: Lob) {
    b.sides.bid == [] || b.sides.ask == [] || b.sides.bid[0].price < b.sides.ask[0].price
  }

  // ----- sub-sequences

  /** t keeps some elements of s, in order, with at most their quantity reduced. */
  ghost predicate Thins(s: seq<Rest>, t: seq<Rest>, at: seq<nat>) {
    && |at| == |t|
    && (forall i | 0 <= i < |t| :: at[i] < |s|)
    && (forall i, j | 0 <= i < j < |t| :: at[i] < at[j])
    && (forall i | 0 <= i < |t| :: t[i] == s[at[i]].(qty := t[i].qty) && 0 < t[i].qty <= s[at[i]].qty)
  }

  lemma ThinsKeeps(side: Side, s: seq<Rest>, t: seq<Rest>, at: seq<nat>, nextId: nat)
    requires Thins(s, t, at) && SideOk(side, s, nextId)
    ensures SideOk(side, t, nextId) && |t| <= |s|
  {
    forall p | p in Prices(t)
      ensures p in Prices(s)
    {
      var i :| 0 <= i < |t| && t[i].price == p;
      assert s[at[i]].price == p;
    }
    SubsetCount(Prices(t), Prices(s));
    ThinsShorter(|s|, at);
  }

  lemma {:induction false} ThinsShorter(n: nat, at: seq<nat>)
    requires forall i | 0 <= i < |at| :: at[i] < n
    requires forall i, j | 0 <= i < j < |at| :: at[i] < at[j]
    ensures |at| <= n
  {
    if |at| > 0 {
      var k := |at| - 1;
      ThinsShorter(at[k], at[..k]);
    }
  }

  /** t is s without its first k orders, with at most its front reduced. */
  ghost predicate Trimmed(s: seq<Rest>, t: seq<Rest>, k: nat) {
    && |t| + k == |s| && (forall i | 0 < i < |t| :: t[i] == s[k + i])
    && (t != [] ==> t[0] == s[k].(qty := t[0].qty) && 0 < t[0].qty <= s[k].qty)
  }

  lemma TrimMore(s: seq<Rest>, t: seq<Rest>, k: nat)
    requires s != [] && Trimmed(s[1..], t, k)
    ensures Trimmed(s, t, k + 1)
  {
    assert forall i | 0 <= i < |s| - 1 :: s[1..][i] == s[i + 1];
  }

  lemma {:induction false} MatchTrims(opp: Side, s: seq<Rest>, limit: int, q: nat) returns (k: nat)
    requires forall i | 0 <= i < |s| :: s[i].qty > 0
    ensures Trimmed(s, Match(opp, s, limit, q).rest, k)
  {
    if q > 0 && s != [] && Crosses(opp, limit, s[0].price) && q >= s[0].qty {
      hide Trimmed;
      k := MatchTrims(opp, s[1..], limit, q - s[0].qty);
      TrimMore(s, Match(opp, s[1..], limit, q - s[0].qty).rest, k);
      k := k + 1;
    } else {
      k := 0;
    }
  }

  /** Matching thins the opposite side. */
  lemma MatchThins(opp: Side, s: seq<Rest>, limit: int, q: nat) returns (at: seq<nat>)
    requires forall i | 0 <= i < |s| :: s[i].qty > 0
    ensures Thins(s, Match(opp, s, limit, q).rest, at)
  {
    hide Match;
    var k := MatchTrims(opp, s, limit, q);
    at := seq(|Match(opp, s, limit, q).rest|, i => k + i);
  }

  /** An id that is present leaves from one place. */
  lemma WithoutAt(s: seq<Rest>, id: nat) returns (k: nat)
    requires DistinctIds(s) && HasId(s, id)
    ensures k < |s| && s[k].id == id && Without(s, id) == RemoveAt(s, k)
  {
    k :| 0 <= k < |s| && s[k].id == id;
    assert s == s[..k] + [s[k]] + s[k + 1..];
    WithoutOnly(s[..k], s[k], s[k + 1..]);
  }

  lemma RemoveThins(s: seq<Rest>, k: nat) returns (at: seq<nat>)
    requires DistinctIds(s) && k < |s| && forall i | 0 <= i < |s| :: s[i].qty > 0
    ensures Thins(s, RemoveAt(s, k), at) && NoId(RemoveAt(s, k), s[k].id)
  {
    at := seq(|s| - 1, i requires 0 <= i < |s| - 1 => if i < k then i else i + 1);
    var t := RemoveAt(s, k);
    assert forall i | 0 <= i < |t| :: t[i] == s[at[i]];
    hide RemoveAt;
  }

  /** Removing an id thins a side by that order, or not at all. */
  lemma WithoutThins(s: seq<Rest>, id: nat) returns (at: seq<nat>)
    requires DistinctIds(s) && forall i | 0 <= i < |s| :: s[i].qty > 0
    ensures Thins(s, Without(s, id), at) && NoId(Without(s, id), id)
    ensures |Without(s, id)| == if HasId(s, id) then |s| - 1 else |s|
  {
    if HasId(s, id) {
      var k := WithoutAt(s, id);
      hide Without; hide Thins; hide HasId; hide NoId; hide DistinctIds;
      at := RemoveThins(s, k);
    } else {
      at := AbsentThins(s, id);
    }
  }

  lemma AbsentThins(s: seq<Rest>, id: nat) returns (at: seq<nat>)
    requires !HasId(s, id) && forall i | 0 <= i < |s| :: s[i].qty > 0
    ensures Thins(s, Without(s, id), at) && NoId(Without(s, id), id) && Without(s, id) == s
  {
    hide Without;
    WithoutAbsent(s, id);
    at := seq(|s|, i => i);
  }

  // ----- entering

  /** A new order goes between what is at least as good and what is worse; nothing else moves. */
  lemma {:induction false} EnterAt(side: Side, s: seq<Rest>, r: Rest) returns (k: nat)
    requires Ranked(side, s)
    ensures k <= |s| && Enter(side, s, r) == s[..k] + [r] + s[k..]
    ensures forall i | 0 <= i < k :: !Better(side, r.price, s[i].price)
    ensures forall i | k <= i < |s| :: Better(side, r.price, s[i].price)
  {
    if s == [] || Better(side, r.price, s[0].price) {
      k := 0;
      assert forall i | 0 < i < |s| :: !Better(side, s[i].price, s[0].price);
    } else {
      RankedTail(side, s);
      k := EnterAt(side, s[1..], r);
      assert [s[0]] + s[1..][..k] == s[..k + 1];
      assert s[1..][k..] == s[k + 1..];
      k := k + 1;
    }
  }

  /** t is s with r put in at place k. */
  ghost predicate Inserted(s: seq<Rest>, k: nat, r: Rest, t: seq<Rest>) {
    && k <= |s| && |t| == |s| + 1 && t[k] == r
    && (forall i | 0 <= i < k :: t[i] == s[i])
    && (forall i | k < i < |t| :: t[i] == s[i - 1])
  }

  lemma InsertedRanked(side: Side, s: seq<Rest>, k: nat, r: Rest, t: seq<Rest>)
    requires Inserted(s, k, r, t) && Ranked(side, s)
    requires forall i | 0 <= i < k :: !Better(side, r.price, s[i].price)
    requires forall i | k <= i < |s| :: Better(side, r.price, s[i].price)
    ensures Ranked(side, t)
  {
    forall i, j | 0 <= i < j < |t|
      ensures !Better(side, t[j].price, t[i].price)
    {
      var i', j' := if i < k then i else i - 1, if j < k then j else j - 1;
      assert i != k ==> t[i] == s[i'];
      assert j != k ==> t[j] == s[j'];
    }
  }

  lemma InsertedIds(s: seq<Rest>, k: nat, r: Rest, t: seq<Rest>)
    requires Inserted(s, k, r, t) && DistinctIds(s) && NoId(s, r.id)
    ensures DistinctIds(t)
  {
    forall i, j | 0 <= i < j < |t|
      ensures t[i].id != t[j].id
    {
      var i', j' := if i < k then i else i - 1, if j < k then j else j - 1;
      assert i != k ==> t[i] == s[i'];
      assert j != k ==> t[j] == s[j'];
    }
  }

  lemma EnterKeeps(side: Side, s: seq<Rest>, r: Rest, nextId: nat)
    requires SideOk(side, s, nextId) && HasRoom(s, r.price)
    requires r.price > 0 && 0 < r.qty && 0 < r.id < nextId && NoId(s, r.id)
    ensures SideOk(side, Enter(side, s, r), nextId) && |Enter(side, s, r)| == |s| + 1
  {
    var k := EnterAt(side, s, r);
    var t := Enter(side, s, r);
    EnterPrices(s, r, k);
    hide Enter; hide Prices; hide HasRoom;
    assert Inserted(s, k, r, t);
    InsertedRanked(side, s, k, r, t);
    InsertedIds(s, k, r, t);
    hide Ranked; hide DistinctIds;
  }

  lemma EnterPrices(s: seq<Rest>, r: Rest, k: nat)
    requires k <= |s| && HasRoom(s, r.price) && |Prices(s)| <= MAX_LEVELS
    ensures |Prices(s[..k] + [r] + s[k..])| <= MAX_LEVELS
  {
    var t := s[..k] + [r] + s[k..];
    forall p | p in Prices(t)
      ensures p in Prices(s) + {r.price}
    {
      var i :| 0 <= i < |t| && t[i].price == p;
      assert t[i] == if i < k then s[i] else if i == k then r else s[i - 1];
    }
    SubsetCount(Prices(t), Prices(s) + {r.price});
  }

  // ----- every run of the book

  datatype Op =
    | AddOp(side: Side, price: int, qty: nat, expiry: nat)
    | CancelOp(id: nat)
    | ModifyOp(id: nat, price: int, qty: nat)

  function Step(b: Lob, op: Op): Lob {
    match op
    case AddOp(side, price, qty, expiry) => Add(b, side, price, qty, expiry).lob
    case CancelOp(id) => Cancel(b, id).0
    case ModifyOp(id, price, qty) => Modify(b, id, price, qty).0
  }

  function Run(b: Lob, ops: seq<Op>): Lob
    decreases |ops|
  {
    if ops == [] then b else Run(Step(b, ops[0]), ops[1..])
  }

  const EMPTY: Lob := Lob(Sided([], []), 1)

  lemma LaterSound(side: Side, s: seq<Rest>, n: nat, n': nat)
    requires SideOk(side, s, n) && n <= n'
    ensures SideOk(side, s, n')
  {
  }

  lemma ThinsApart(s: seq<Rest>, t: seq<Rest>, at: seq<nat>, u: seq<Rest>)
    requires Thins(s, t, at) && Apart(s, u)
    ensures Apart(t, u)
  {
  }

  lemma ApartSym(s: seq<Rest>, t: seq<Rest>)
    ensures Apart(s, t) <==> Apart(t, s)
  {
  }

  lemma EnterApart(side: Side, s: seq<Rest>, r: Rest, u: seq<Rest>)
    requires Ranked(side, s) && Apart(s, u) && NoId(u, r.id)
    ensures Apart(Enter(side, s, r), u)
  {
    var k := EnterAt(side, s, r);
    var t := Enter(side, s, r);
    hide Enter;
    assert Inserted(s, k, r, t);
  }

  /** The two sides, named by the side being worked on. */
  ghost predicate PairOk(side: Side, own: seq<Rest>, opp: seq<Rest>, nextId: nat) {
    SideOk(side, own, nextId) && SideOk(side.Opposite(), opp, nextId) && Apart(own, opp) && |own| + |opp| <= MAX_ORDERS
  }

  lemma PairIsBook(b: Lob, side: Side)
    ensures WellFormed(b) <==>
      PairOk(side, b.sides.Get(side), b.sides.Get(side.Opposite()), b.nextId) && 0 < b.nextId
  {
    hide SideOk;
    ApartSym(b.sides.bid, b.sides.ask);
    hide Apart;
  }

  lemma NewIdFresh(side: Side, s: seq<Rest>, nextId: nat)
    requires SideOk(side, s, nextId)
    ensures NoId(s, nextId)
  {
  }

  lemma PositiveSide(side: Side, s: seq<Rest>, nextId: nat)
    requires SideOk(side, s, nextId)
    ensures Ranked(side, s) && DistinctIds(s) && forall i | 0 <= i < |s| :: s[i].qty > 0
  {
  }

  lemma AddKeeps(b: Lob, side: Side, price: int, qty: nat, expiry: nat)
    requires WellFormed(b)
    ensures WellFormed(Add(b, side, price, qty, expiry).lob)
  {
    hide WellFormed; hide SideOk; hide Thins; hide Match; hide HasRoom; hide Enter; hide Apart; hide NoId;
    hide Ranked;
    var opp, own, other := side.Opposite(), b.sides.Get(side), b.sides.Get(side.Opposite());
    PairIsBook(b, side);
    PositiveSide(opp, other, b.nextId);
    PositiveSide(side, own, b.nextId);
    var at := MatchThins(opp, other, price, qty);
    var m := Match(opp, other, price, qty);
    ThinsKeeps(opp, other, m.rest, at, b.nextId);
    ApartSym(own, other);
    ThinsApart(other, m.rest, at, own);
    ApartSym(own, m.rest);
    LaterSound(opp, m.rest, b.nextId, b.nextId + 1);
    LaterSound(side, own, b.nextId, b.nextId + 1);
    if m.left > 0 && price > 0 && HasRoom(own, price) {
      var r := Rest(b.nextId, price, m.left, qty, expiry);
      NewIdFresh(side, own, b.nextId);
      NewIdFresh(opp, m.rest, b.nextId);
      EnterKeeps(side, own, r, b.nextId + 1);
      EnterApart(side, own, r, m.rest);
    }
    var b' := Add(b, side, price, qty, expiry).lob;
    PairIsBook(b', side);
  }

  lemma HoldingSide(b: Lob, id: nat)
    requires Live(b, id)
    ensures HasId(b.sides.Get(SideHolding(b, id)), id)
  {
  }

  lemma CancelKeeps(b: Lob, id: nat)
    requires WellFormed(b)
    ensures WellFormed(Cancel(b, id).0)
  {
    if Live(b, id) {
      HoldingSide(b, id);
      hide WellFormed; hide SideOk; hide Thins; hide Without; hide Apart; hide NoId; hide Ranked; hide Live;
      hide HasId;
      hide DistinctIds;
      var side := SideHolding(b, id);
      var own, opp := b.sides.Get(side), b.sides.Get(side.Opposite());
      PairIsBook(b, side);
      PositiveSide(side, own, b.nextId);
      var at := WithoutThins(own, id);
      ThinsKeeps(side, own, Without(own, id), at, b.nextId);
      ThinsApart(own, Without(own, id), at, opp);
      PairIsBook(Cancel(b, id).0, side);
    }
  }

  lemma ApartNoId(s: seq<Rest>, u: seq<Rest>, id: nat)
    requires Apart(s, u) && HasId(s, id)
    ensures NoId(u, id)
  {
  }

  lemma IssuedId(side: Side, s: seq<Rest>, id: nat, nextId: nat)
    requires SideOk(side, s, nextId) && HasId(s, id)
    ensures 0 < id < nextId
  {
  }

  lemma ModifyKeeps(b: Lob, id: nat, price: int, qty: nat)
    requires WellFormed(b)
    ensures WellFormed(Modify(b, id, price, qty).0)
  {
    if price > 0 && qty > 0 && Live(b, id) {
      HoldingSide(b, id);
      hide WellFormed; hide SideOk; hide Thins; hide Without; hide Apart; hide NoId; hide Ranked; hide Live;
      hide HasId;
      hide DistinctIds; hide HasRoom; hide Enter; hide Find;
      var side := SideHolding(b, id);
      var own, opp := b.sides.Get(side), b.sides.Get(side.Opposite());
      PairIsBook(b, side);
      PositiveSide(side, own, b.nextId);
      IssuedId(side, own, id, b.nextId);
      ApartNoId(own, opp, id);
      var at := WithoutThins(own, id);
      var t := Without(own, id);
      ThinsKeeps(side, own, t, at, b.nextId);
      ThinsApart(own, t, at, opp);
      if HasRoom(t, price) {
        var r := Find(own, id).(price := price, qty := qty);
        PositiveSide(side, t, b.nextId);
        EnterKeeps(side, t, r, b.nextId);
        EnterApart(side, t, r, opp);
      }
      PairIsBook(Modify(b, id, price, qty).0, side);
    }
  }

  lemma StepKeeps(b: Lob, op: Op)
    requires WellFormed(b)
    ensures WellFormed(Step(b, op))
  {
    hide WellFormed;
    match op {
      case AddOp(side, price, qty, expiry) => AddKeeps(b, side, price, qty, expiry);
      case CancelOp(id) => CancelKeeps(b, id);
      case ModifyOp(id, price, qty) => ModifyKeeps(b, id, price, qty);
    }
  }

  /** An id may be given out without an order. */
  lemma LaterFormed(b: Lob)
    requires WellFormed(b)
    ensures 0 < b.nextId && WellFormed(b.(nextId := b.nextId + 1))
  {
  }

  /** Every run from the empty book is well formed at its end. */
  lemma {:induction false} RunKeeps(b: Lob, ops: seq<Op>)
    requires WellFormed(b)
    ensures WellFormed(Run(b, ops))
    decreases |ops|
  {
    if ops != [] {
      StepKeeps(b, ops[0]);
      RunKeeps(Step(b, ops[0]), ops[1..]);
    }
  }

  lemma ReachableWellFormed(ops: seq<Op>)
    ensures WellFormed(Run(EMPTY, ops))
  {
    assert Prices([]) == {};
    RunKeeps(EMPTY, ops);
  }

  // ----- time priority under amendment

  /** The one behind is at another price, or there is none. */
  predicate LastAtPrice(s: seq<Rest>, k: nat)
    requires k < |s|
  {
    k + 1 == |s| || s[k + 1].price != s[k].price
  }

  /** Entering a sequence again after leaving it from place k, at the same price. */
  lemma ReentersAt(side: Side, s: seq<Rest>, k: nat, r: Rest)
    requires k < |s| && Ranked(side, s) && DistinctIds(s) && r.price == s[k].price && r.id == s[k].id
    ensures Enter(side, RemoveAt(s, k), r) == s[k := r] <==> LastAtPrice(s, k)
  {
    var t := RemoveAt(s, k);
    assert forall i | 0 <= i < k :: t[i] == s[i];
    assert forall i | k <= i < |t| :: t[i] == s[i + 1];
    RemovedRanked(side, s, k);
    var j := EnterAt(side, t, r);
    hide Enter; hide RemoveAt; hide Ranked;
    if LastAtPrice(s, k) {
      BehindIsWorse(side, s, k);
      ghost var u, v := if j < |t| then t[j].price else 0, if k < |t| then t[k].price else 0;
      assert j == k;
      assert t[..k] + [r] + t[k..] == s[k := r];
    } else {
      assert t[k] == s[k + 1] && t[k].price == r.price;
      assert k < j;
      assert (t[..j] + [r] + t[j..])[k] == s[k + 1];
    }
  }

  lemma RemovedRanked(side: Side, s: seq<Rest>, k: nat)
    requires k < |s| && Ranked(side, s)
    ensures Ranked(side, RemoveAt(s, k))
    ensures forall i | 0 <= i < k :: !Better(side, s[k].price, s[i].price)
  {
    var t := RemoveAt(s, k);
    assert forall i | 0 <= i < |t| :: t[i] == s[if i < k then i else i + 1];
  }

  lemma BehindIsWorse(side: Side, s: seq<Rest>, k: nat)
    requires k < |s| && Ranked(side, s) && LastAtPrice(s, k)
    ensures forall i | k < i < |s| :: Better(side, s[k].price, s[i].price)
  {
    forall i | k < i < |s|
      ensures Better(side, s[k].price, s[i].price)
    {
      assert !Better(side, s[k + 1].price, s[k].price) && (i > k + 1 ==> !Better(side, s[i].price, s[k + 1].price));
    }
  }

  lemma RoomAfterLeaving(s: seq<Rest>, k: nat)
    requires k < |s| && |Prices(s)| <= MAX_LEVELS
    ensures HasRoom(RemoveAt(s, k), s[k].price)
  {
    var t, p := RemoveAt(s, k), s[k].price;
    assert forall i | 0 <= i < |t| :: t[i] == s[if i < k then i else i + 1];
    if p !in Prices(t) {
      assert p in Prices(s);
      assert Prices(t) <= Prices(s) - {p};
      SubsetCount(Prices(t), Prices(s) - {p});
    }
  }

  /**
   Changing the quantity at an unchanged price keeps the order's place exactly when it was the last of its
   price: it is always queued again behind its peers.
   */
  lemma RequantityKeepsPlaceIff(b: Lob, side: Side, k: nat, qty: nat)
    requires WellFormed(b) && k < |b.sides.Get(side)| && qty > 0
    ensures var own := b.sides.Get(side);
      var (b', status) := Modify(b, own[k].id, own[k].price, qty);
      && status == Accepted && b'.sides.Get(side.Opposite()) == b.sides.Get(side.Opposite())
      && (b'.sides.Get(side) == own[k := own[k].(qty := qty)] <==> LastAtPrice(own, k))
  {
    var own := b.sides.Get(side);
    var x := own[k];
    OneHolder(b, side, k);
    PairIsBook(b, side);
    PositiveSide(side, own, b.nextId);
    RoomAfterLeaving(own, k);
    RemoveOwn(own, k);
    FindOwn(own, k);
    ModifySides(b, x.id, x.price, qty);
    ReentersAt(side, own, k, x.(qty := qty));
  }

  lemma OneHolder(b: Lob, side: Side, k: nat)
    requires WellFormed(b) && k < |b.sides.Get(side)|
    ensures Live(b, b.sides.Get(side)[k].id) && SideHolding(b, b.sides.Get(side)[k].id) == side
    ensures b.sides.Get(side)[k].price > 0 && |Prices(b.sides.Get(side))| <= MAX_LEVELS
  {
  }

  lemma RemoveOwn(s: seq<Rest>, k: nat)
    requires DistinctIds(s) && k < |s|
    ensures Without(s, s[k].id) == RemoveAt(s, k)
  {
    var j := WithoutAt(s, s[k].id);
    assert j == k;
  }

  lemma FindOwn(s: seq<Rest>, k: nat)
    requires DistinctIds(s) && k < |s|
    ensures HasId(s, s[k].id) && Find(s, s[k].id) == s[k]
  {
    var r := Find(s, s[k].id);
    var i :| 0 <= i < |s| && s[i] == r;
  }

  /** Two orders at one price: reducing the first puts it behind the second. */
  lemma ReducingCanLosePlace()
    ensures var x, y := Rest(1, 10, 5, 5, 0), Rest(2, 10, 5, 5, 0);
      var b := Lob(Sided([x, y], []), 3);
      WellFormed(b) && Modify(b, 1, 10, 4).0.sides.bid != [x.(qty := 4), y]
  {
    var x, y := Rest(1, 10, 5, 5, 0), Rest(2, 10, 5, 5, 0);
    var b := Lob(Sided([x, y], []), 3);
    TwoOrders(x, y);
    assert b.sides.Get(Bid)[0 := x.(qty := 4)] == [x.(qty := 4), y];
    hide WellFormed; hide Modify;
    RequantityKeepsPlaceIff(b, Bid, 0, 4);
  }

  lemma TwoOrders(x: Rest, y: Rest)
    requires x == Rest(1, 10, 5, 5, 0) && y == Rest(2, 10, 5, 5, 0)
    ensures WellFormed(Lob(Sided([x, y], []), 3))
  {
    var s, none: seq<Rest> := [x, y], [];
    assert Prices(none) == {};
    assert s[0].price == 10 && Prices(s) == {10};
  }

  // ----- conservation

  lemma {:induction false} EnterQty(side: Side, s: seq<Rest>, r: Rest)
    ensures Qty(Enter(side, s, r)) == Qty(s) + r.qty
  {
    var t := Enter(side, s, r);
    if s == [] || Better(side, r.price, s[0].price) {
      assert t[1..] == s;
    } else {
      EnterQty(side, s[1..], r);
      assert t[1..] == Enter(side, s[1..], r);
    }
  }

  /**
   Every fill takes its quantity once from each side: what the order brought is traded, rests, or is lost at
   the level limit, and the other side holds less by what was traded.
   */
  lemma AddConserves(b: Lob, side: Side, price: int, qty: nat, expiry: nat)
    ensures var a, opp := Add(b, side, price, qty, expiry), side.Opposite();
      && FilledQty(a.fills) <= qty
      && Qty(a.lob.sides.Get(opp)) + FilledQty(a.fills) == Qty(b.sides.Get(opp))
      && Qty(a.lob.sides.Get(side))
         == Qty(b.sides.Get(side)) + if a.status in {Accepted, Partial} then qty - FilledQty(a.fills) else 0
  {
    var opp, own := side.Opposite(), b.sides.Get(side);
    var m := Match(opp, b.sides.Get(opp), price, qty);
    MatchConserves(opp, b.sides.Get(opp), price, qty);
    EnterQty(side, own, Rest(b.nextId, price, m.left, qty, expiry));
    NoFillQty();
    hide Match; hide Enter; hide HasRoom; hide Qty; hide FilledQty;
  }

  lemma NoFillQty()
    ensures FilledQty([]) == 0
  {
  }

  /** The fill buffer never fills up: an order makes fewer fills than the book has slots. */
  lemma FillsFit(b: Lob, side: Side, price: int, qty: nat, expiry: nat)
    requires WellFormed(b)
    ensures |Add(b, side, price, qty, expiry).fills| < MAX_ORDERS
  {
    MatchIsPrefix(side.Opposite(), b.sides.Get(side.Opposite()), price, qty);
    hide Match; hide Enter; hide HasRoom; hide SideOk;
  }

  // ----- the book does not cross itself

  /** Uncrossed, seen from one side: the front of that side is not within reach of the other. */
  predicate OutOfReach(side: Side, own: seq<Rest>, opp: seq<Rest>) {
    own == [] || opp == [] || !Crosses(side.Opposite(), own[0].price, opp[0].price)
  }

  lemma UncrossedIs(b: Lob, side: Side)
    ensures Uncrossed(b) <==> OutOfReach(side, b.sides.Get(side), b.sides.Get(side.Opposite()))
  {
  }

  /** A thinned side has no better front. */
  lemma ThinFront(side: Side, s: seq<Rest>, t: seq<Rest>, at: seq<nat>)
    requires Thins(s, t, at) && Ranked(side, s) && t != []
    ensures s != [] && !Better(side, t[0].price, s[0].price)
  {
    assert t[0].price == s[at[0]].price;
  }

  lemma EnterFront(side: Side, s: seq<Rest>, r: Rest)
    ensures Enter(side, s, r) != []
    ensures Enter(side, s, r)[0].price == if s == [] || Better(side, r.price, s[0].price) then r.price else s[0].price
  {
  }

  lemma AddUncrossed(b: Lob, side: Side, price: int, qty: nat, expiry: nat)
    requires WellFormed(b) && Uncrossed(b)
    ensures Uncrossed(Add(b, side, price, qty, expiry).lob)
  {
    hide WellFormed; hide SideOk; hide Thins; hide Match; hide HasRoom; hide Enter; hide Apart; hide NoId;
    hide Ranked;
    hide Uncrossed;
    var opp, own, other := side.Opposite(), b.sides.Get(side), b.sides.Get(side.Opposite());
    PairIsBook(b, side);
    UncrossedIs(b, side);
    PositiveSide(opp, other, b.nextId);
    var at := MatchThins(opp, other, price, qty);
    MatchStops(opp, other, price, qty);
    var m := Match(opp, other, price, qty);
    if m.rest != [] {
      ThinFront(opp, other, m.rest, at);
    }
    var r := Rest(b.nextId, price, m.left, qty, expiry);
    EnterFront(side, own, r);
    UncrossedIs(Add(b, side, price, qty, expiry).lob, side);
  }

  lemma CancelUncrossed(b: Lob, id: nat)
    requires WellFormed(b) && Uncrossed(b)
    ensures Uncrossed(Cancel(b, id).0)
  {
    if Live(b, id) {
      var side := SideHolding(b, id);
      var own := b.sides.Get(side);
      hide WellFormed; hide SideOk; hide Thins; hide Without; hide Apart; hide NoId; hide Ranked; hide Live;
      hide HasId;
      hide DistinctIds; hide Uncrossed; hide SideHolding;
      PairIsBook(b, side);
      UncrossedIs(b, side);
      PositiveSide(side, own, b.nextId);
      var at := WithoutThins(own, id);
      if Without(own, id) != [] {
        ThinFront(side, own, Without(own, id), at);
      }
      UncrossedIs(Cancel(b, id).0, side);
    }
  }

  /** The new price of an amended order reaches the best price of the other side. */
  predicate Reaches(b: Lob, id: nat, price: int) {
    Live(b, id) &&
    var opp := SideHolding(b, id).Opposite();
    b.sides.Get(opp) != [] && Crosses(opp, price, b.sides.Get(opp)[0].price)
  }

  /** The amendment would rest within reach of the other side. */
  predicate Overreaches(b: Lob, id: nat, price: int, qty: nat) {
    && price > 0 && qty > 0 && Reaches(b, id, price)
    && HasRoom(Without(b.sides.Get(SideHolding(b, id)), id), price)
  }

  lemma ThinReach(side: Side, s: seq<Rest>, t: seq<Rest>, at: seq<nat>, opp: seq<Rest>)
    requires Thins(s, t, at) && Ranked(side, s) && OutOfReach(side, s, opp)
    ensures OutOfReach(side, t, opp)
  {
    if t != [] {
      ThinFront(side, s, t, at);
    }
  }

  /** A side with one more order is out of reach exactly when both it and the order were. */
  lemma EnteredReach(side: Side, t: seq<Rest>, r: Rest, opp: seq<Rest>)
    ensures OutOfReach(side, Enter(side, t, r), opp) <==>
      OutOfReach(side, t, opp) && !(opp != [] && Crosses(side.Opposite(), r.price, opp[0].price))
  {
  }

  /** The sides after an amendment of a live order. */
  lemma ModifySides(b: Lob, id: nat, price: int, qty: nat)
    requires price > 0 && qty > 0 && Live(b, id)
    ensures var side := SideHolding(b, id);
      var t, (b', status) := Without(b.sides.Get(side), id), Modify(b, id, price, qty);
      && HasId(b.sides.Get(side), id)
      && b'.sides.Get(side.Opposite()) == b.sides.Get(side.Opposite())
      && (status == Accepted <==> HasRoom(t, price))
      && b'.sides.Get(side)
         == if HasRoom(t, price) then Enter(side, t, Find(b.sides.Get(side), id).(price := price, qty := qty)) else t
  {
    HoldingSide(b, id);
    hide Without; hide HasRoom; hide Enter; hide Find; hide HasId; hide SideHolding; hide Live;
  }

  /**
   Amending rests the order without matching it, so an amendment crosses the book exactly when its price reaches
   and the order's side has room for that price.
   */
  lemma ModifyUncrossedIff(b: Lob, id: nat, price: int, qty: nat)
    requires WellFormed(b) && Uncrossed(b)
    ensures Uncrossed(Modify(b, id, price, qty).0) <==> !Overreaches(b, id, price, qty)
  {
    if price > 0 && qty > 0 && Live(b, id) {
      ModifySides(b, id, price, qty);
      hide WellFormed; hide SideOk; hide Thins; hide Without; hide Apart; hide NoId; hide Ranked; hide HasId;
      hide Live;
      hide DistinctIds; hide Uncrossed; hide HasRoom; hide Enter; hide Find; hide SideHolding; hide OutOfReach;
      hide Crosses;
      hide Modify;
      var side := SideHolding(b, id);
      var own, opp := b.sides.Get(side), b.sides.Get(side.Opposite());
      PairIsBook(b, side);
      UncrossedIs(b, side);
      PositiveSide(side, own, b.nextId);
      var at := WithoutThins(own, id);
      ThinReach(side, own, Without(own, id), at, opp);
      EnteredReach(side, Without(own, id), Find(own, id).(price := price, qty := qty), opp);
      UncrossedIs(Modify(b, id, price, qty).0, side);
    }
  }

  /** Two orders that do not cross, and an amendment that makes them. */
  lemma ModifyCanCross()
    ensures var b := Run(EMPTY, [AddOp(Bid, 10, 5, 0), AddOp(Ask, 12, 5, 0)]);
      Uncrossed(b) && !Uncrossed(Step(b, ModifyOp(1, 12, 5)))
  {
    var r1, r2 := Rest(1, 10, 5, 5, 0), Rest(2, 12, 5, 5, 0);
    assert Prices(EMPTY.sides.bid) == {};
    var b1 := Step(EMPTY, AddOp(Bid, 10, 5, 0));
    assert HasRoom(EMPTY.sides.bid, 10) && Enter(Bid, EMPTY.sides.bid, r1) == [r1];
    assert b1 == Lob(Sided([r1], []), 2);
    assert Prices(b1.sides.ask) == {};
    var b2 := Step(b1, AddOp(Ask, 12, 5, 0));
    assert HasRoom(b1.sides.ask, 12) && Enter(Ask, b1.sides.ask, r2) == [r2];
    assert b2 == Lob(Sided([r1], [r2]), 3);
    var ops := [AddOp(Bid, 10, 5, 0), AddOp(Ask, 12, 5, 0)];
    assert ops[1..] == [AddOp(Ask, 12, 5, 0)] && ops[1..][1..] == [];
    assert Run(EMPTY, ops) == b2;
    assert b2.sides.bid[0].id == 1;
    assert Without(b2.sides.bid, 1) == [];
  }

  /** No amendment of the run comes to rest within reach of the other side. */
  ghost predicate Calm(b: Lob, ops: seq<Op>)
    decreases |ops|
  {
    ops != [] ==>
      && (ops[0].ModifyOp? ==> !Overreaches(b, ops[0].id, ops[0].price, ops[0].qty))
      && Calm(Step(b, ops[0]), ops[1..])
  }

  /** The book is uncrossed before, after and at every point of the run. */
  ghost predicate AlwaysUncrossed(b: Lob, ops: seq<Op>)
    decreases |ops|
  {
    Uncrossed(b) && (ops != [] ==> AlwaysUncrossed(Step(b, ops[0]), ops[1..]))
  }

  lemma StepUncrossedIff(b: Lob, op: Op)
    requires WellFormed(b) && Uncrossed(b)
    ensures Uncrossed(Step(b, op)) <==> !(op.ModifyOp? && Overreaches(b, op.id, op.price, op.qty))
  {
    hide WellFormed; hide Uncrossed; hide Reaches; hide HasRoom; hide Without;
    match op {
      case AddOp(side, price, qty, expiry) => AddUncrossed(b, side, price, qty, expiry);
      case CancelOp(id) => CancelUncrossed(b, id);
      case ModifyOp(id, price, qty) => ModifyUncrossedIff(b, id, price, qty);
    }
  }

  /** Over every run of additions, cancellations and amendments, best bid stays below best ask exactly when none does. */
  lemma {:induction false} RunUncrossedIff(b: Lob, ops: seq<Op>)
    requires WellFormed(b) && Uncrossed(b)
    ensures AlwaysUncrossed(b, ops) <==> Calm(b, ops)
    decreases |ops|
  {
    if ops != [] {
      hide WellFormed; hide Uncrossed; hide Overreaches; hide Step;
      StepKeeps(b, ops[0]);
      StepUncrossedIff(b, ops[0]);
      if Uncrossed(Step(b, ops[0])) {
        RunUncrossedIff(Step(b, ops[0]), ops[1..]);
      }
    }
  }

  /** In particular at its end. */
  lemma {:induction false} RunUncrossed(b: Lob, ops: seq<Op>)
    requires WellFormed(b) && Uncrossed(b) && Calm(b, ops)
    ensures Uncrossed(Run(b, ops))
    decreases |ops|
  {
    if ops != [] {
      hide WellFormed; hide Uncrossed; hide Overreaches; hide Step;
      StepKeeps(b, ops[0]);
      StepUncrossedIff(b, ops[0]);
      RunUncrossed(Step(b, ops[0]), ops[1..]);
    }
  }
}
