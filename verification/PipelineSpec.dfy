/**
 What one admitted message does to the engine, the ownership map and the accounts (pipeline/pipeline.c), and
 when settlement is zero-sum.
 */
module PipelineSpec {
  import opened Arith
  import opened Types
  import opened EngineSpec
  import A = Accounting
  import G = GatewaySpec

  const MAX_ACCOUNTS: nat := 64
  const MAX_OWNERS: nat := 65536

  /** An entry of id_map: who submitted the order of that engine id. */
  datatype Owner = Owner(id: nat, account: nat)

  /** A place in the account table. */
  datatype Seat = Vacant | Taken(a: A.Account)

  datatype Pipe = Pipe(core: Core, owners: seq<Owner>, seats: seq<Seat>)

  // ----- attribution

  /** id_map_lookup_account: the first match, 0 when there is none. */
  function OwnerOf(owners: seq<Owner>, id: nat): nat {
    if owners == [] then 0 else if owners[0].id == id then owners[0].account else OwnerOf(owners[1..], id)
  }

  /** pipeline_account: the account has been set up. */
  predicate Known(seats: seq<Seat>, account: nat) {
    1 <= account <= |seats| && seats[account - 1].Taken?
  }

  /** One leg of a trade, skipped when the account is not known. */
  function Leg(seats: seq<Seat>, account: nat, d: int, price: int): seq<Seat> {
    if Known(seats, account) then seats[account - 1 := Taken(A.Fill(A.Truncate, seats[account - 1].a, d, price))]
    else seats
  }

  /** apply_trade; other events leave the accounts alone. */
  function Settle(owners: seq<Owner>, seats: seq<Seat>, e: Event): seq<Seat> {
    if !e.Trade? then seats
    else
      Leg(Leg(seats, OwnerOf(owners, e.aggressor), A.Signed(e.aggressorSide, e.tradeQty), e.tradePrice),
          OwnerOf(owners, e.resting), A.Signed(e.aggressorSide.Opposite(), e.tradeQty), e.tradePrice)
  }

  function SettleAll(owners: seq<Owner>, seats: seq<Seat>, seen: seq<Event>): seq<Seat>
    decreases |seen|
  {
    if seen == [] then seats else SettleAll(owners, Settle(owners, seats, seen[0]), seen[1..])
  }

  lemma {:induction false} SettleConcat(owners: seq<Owner>, seats: seq<Seat>, a: seq<Event>, b: seq<Event>)
    ensures SettleAll(owners, seats, a + b) == SettleAll(owners, SettleAll(owners, seats, a), b)
    decreases |a|
  {
    hide Settle;
    if a == [] {
      assert a + b == b;
    } else {
      assert (a + b)[1..] == a[1..] + b;
      SettleConcat(owners, Settle(owners, seats, a[0]), a[1..], b);
    }
  }

  lemma SettleFew(owners: seq<Owner>, seats: seq<Seat>)
    ensures SettleAll(owners, seats, []) == seats
    ensures forall e: Event :: SettleAll(owners, seats, [e]) == Settle(owners, seats, e)
  {
    hide Settle;
    forall e: Event
      ensures SettleAll(owners, seats, [e]) == Settle(owners, seats, e)
    {
      assert [e][1..] == [];
    }
  }

  // ----- one message

  function SideOf(n: nat): Side {
    if n == 0 then Bid else Ask
  }

  function KindOf(n: nat): OrderType {
    match n
    case 0 => Limit
    case 1 => Market
    case 2 => Ioc
    case 3 => Fok
    case 4 => Stop
    case _ => StopLimit
  }

  /** stage_validate. */
  predicate Validates(o: G.Raw) {
    o.action == G.ACT_NEW ==>
      match o.kind
      case 0 => o.price != 0
      case 1 => o.price == 0
      case 2 => o.price != 0
      case 3 => o.price != 0
      case 4 => o.trigger != 0 && o.price == 0
      case 5 => o.trigger != 0 && o.price != 0
      case _ => false
  }

  /** match_new: the new state and the engine's id for the order, 0 when it was turned away. */
  function MatchNew(c: Core, o: G.Raw, expiry: nat): (Core, nat) {
    var kind, side := KindOf(o.kind), SideOf(o.side);
    if kind in {Stop, StopLimit} then
      var (c', r) := SubmitStop(c, kind, side, o.trigger, o.price, o.qty, expiry);
      (c', r.id)
    else
      var e := Submit(c, Request(kind, side, o.price, o.qty));
      (e.core, e.result.id)
  }

  /** match_cancel: a resting order first, then a dormant one. */
  function MatchCancel(c: Core, id: nat): Core {
    var (c', ok) := CancelOrder(c, id);
    if ok then c' else CancelStop(c', id).0
  }

  /** id_map_remember, skipped for an order that was turned away or when the map is full. */
  function Remember(owners: seq<Owner>, id: nat, account: nat): seq<Owner> {
    if id == 0 || |owners| >= MAX_OWNERS then owners else owners + [Owner(id, account)]
  }

  /** Whether a message reaches the matching engine; the verdict of the risk check is an input. */
  predicate Passes(p: Pipe, o: G.Raw, riskOk: bool) {
    Validates(o) && (Known(p.seats, o.account) ==> riskOk)
  }

  /** The engine and the ownership map after routing. */
  function Routed(p: Pipe, o: G.Raw, expiry: nat): Pipe {
    if o.action == G.ACT_NEW then
      var (c, id) := MatchNew(p.core, o, expiry);
      p.(core := c, owners := Remember(p.owners, id, o.account))
    else if o.action == G.ACT_CANCEL then p.(core := MatchCancel(p.core, o.target))
    else if o.action == G.ACT_MODIFY then p.(core := ModifyOrder(p.core, o.target, o.newPrice, o.newQty).0)
    else p
  }

  /** One turn of pipeline_step. `seen` is what came off the engine's event ring. */
  function Handle(p: Pipe, o: G.Raw, expiry: nat, riskOk: bool, seen: seq<Event>): Pipe {
    if !Passes(p, o, riskOk) then p
    else
      var p' := Routed(p, o, expiry);
      p'.(seats := SettleAll(p'.owners, p'.seats, seen))
  }

  // ----- totals

  function TotalCash(seats: seq<Seat>): int {
    if seats == [] then 0 else (if seats[0].Taken? then seats[0].a.cash else 0) + TotalCash(seats[1..])
  }

  function TotalNet(seats: seq<Seat>): int {
    if seats == [] then 0 else (if seats[0].Taken? then seats[0].a.net else 0) + TotalNet(seats[1..])
  }

  lemma {:induction false} TotalsUpdate(seats: seq<Seat>, i: nat, a: A.Account)
    requires i < |seats| && seats[i].Taken?
    ensures TotalCash(seats[i := Taken(a)]) == TotalCash(seats) - seats[i].a.cash + a.cash
    ensures TotalNet(seats[i := Taken(a)]) == TotalNet(seats) - seats[i].a.net + a.net
  {
    var t := seats[i := Taken(a)];
    if i == 0 {
      assert t[1..] == seats[1..];
    } else {
      TotalsUpdate(seats[1..], i - 1, a);
      assert t[1..] == seats[1..][i - 1 := Taken(a)];
    }
  }

  lemma LegTotals(seats: seq<Seat>, account: nat, d: int, price: int)
    ensures var t, k := Leg(seats, account, d, price), if Known(seats, account) then d else 0;
      && TotalCash(t) == TotalCash(seats) - k * price && TotalNet(t) == TotalNet(seats) + k
      && |t| == |seats| && forall n: nat :: Known(t, n) <==> Known(seats, n)
  {
    if Known(seats, account) {
      var a := seats[account - 1].a;
      A.FillMoves(A.Truncate, a, d, price);
      TotalsUpdate(seats, account - 1, A.Fill(A.Truncate, a, d, price));
    }
  }

  /** The quantity by which a trade leaves the totals out: none, unless just one of its sides can be attributed. */
  function Gap(owners: seq<Owner>, seats: seq<Seat>, e: Event): int {
    if !e.Trade? then 0
    else
      var d := A.Signed(e.aggressorSide, e.tradeQty);
      (if Known(seats, OwnerOf(owners, e.aggressor)) then d else 0)
      - (if Known(seats, OwnerOf(owners, e.resting)) then d else 0)
  }

  function PriceOf(e: Event): int {
    if e.Trade? then e.tradePrice else 0
  }

  /** What one trade does to the totals. */
  lemma SettleTotals(owners: seq<Owner>, seats: seq<Seat>, e: Event)
    ensures var t, gap := Settle(owners, seats, e), Gap(owners, seats, e);
      && TotalCash(t) == TotalCash(seats) - gap * PriceOf(e) && TotalNet(t) == TotalNet(seats) + gap
      && |t| == |seats| && forall n: nat :: Known(t, n) <==> Known(seats, n)
  {
    hide Known; hide Leg; hide TotalCash; hide TotalNet; hide OwnerOf;
    if e.Trade? {
      var d := A.Signed(e.aggressorSide, e.tradeQty);
      var agg, rest := OwnerOf(owners, e.aggressor), OwnerOf(owners, e.resting);
      LegTotals(seats, agg, d, e.tradePrice);
      var t := Leg(seats, agg, d, e.tradePrice);
      assert A.Signed(e.aggressorSide.Opposite(), e.tradeQty) == -d;
      LegTotals(t, rest, -d, e.tradePrice);
      NegMul(e.tradePrice, d);
      MulZero(e.tradePrice);
    }
  }

  /** The quantity, and the money, by which a sequence of events leaves the totals out. */
  function Gaps(owners: seq<Owner>, seats: seq<Seat>, seen: seq<Event>): int {
    if seen == [] then 0 else Gap(owners, seats, seen[0]) + Gaps(owners, seats, seen[1..])
  }

  function CashGaps(owners: seq<Owner>, seats: seq<Seat>, seen: seq<Event>): int {
    if seen == [] then 0
    else Gap(owners, seats, seen[0]) * PriceOf(seen[0]) + CashGaps(owners, seats, seen[1..])
  }

  lemma {:induction false} GapsSame(owners: seq<Owner>, a: seq<Seat>, b: seq<Seat>, seen: seq<Event>)
    requires forall n: nat :: Known(a, n) <==> Known(b, n)
    ensures Gaps(owners, a, seen) == Gaps(owners, b, seen) && CashGaps(owners, a, seen) == CashGaps(owners, b, seen)
  {
    hide Known; hide OwnerOf; hide PriceOf;
    if seen != [] {
      assert Gap(owners, a, seen[0]) == Gap(owners, b, seen[0]);
      GapsSame(owners, a, b, seen[1..]);
    }
  }

  /** Whatever is settled, the totals move by exactly what cannot be attributed on both sides. */
  lemma {:induction false} SettleAllMoves(owners: seq<Owner>, seats: seq<Seat>, seen: seq<Event>)
    ensures var t := SettleAll(owners, seats, seen);
      && TotalNet(t) == TotalNet(seats) + Gaps(owners, seats, seen)
      && TotalCash(t) == TotalCash(seats) - CashGaps(owners, seats, seen)
      && |t| == |seats| && forall n: nat :: Known(t, n) <==> Known(seats, n)
    decreases |seen|
  {
    hide Known; hide Settle; hide Gap; hide PriceOf; hide TotalCash; hide TotalNet;
    if seen != [] {
      var t := Settle(owners, seats, seen[0]);
      SettleTotals(owners, seats, seen[0]);
      SettleAllMoves(owners, t, seen[1..]);
      GapsSame(owners, t, seats, seen[1..]);
    }
  }

  /** Both sides of every trade are attributed to accounts that exist. */
  ghost predicate Attributed(owners: seq<Owner>, seats: seq<Seat>, seen: seq<Event>) {
    forall i | 0 <= i < |seen| && seen[i].Trade? ::
      Known(seats, OwnerOf(owners, seen[i].aggressor)) && Known(seats, OwnerOf(owners, seen[i].resting))
  }

  lemma {:induction false} NoGaps(owners: seq<Owner>, seats: seq<Seat>, seen: seq<Event>)
    requires Attributed(owners, seats, seen)
    ensures Gaps(owners, seats, seen) == 0 && CashGaps(owners, seats, seen) == 0
  {
    hide Known; hide OwnerOf; hide PriceOf;
    if seen != [] {
      assert Gap(owners, seats, seen[0]) == 0;
      assert forall i | 0 <= i < |seen| - 1 :: seen[1..][i] == seen[i + 1];
      NoGaps(owners, seats, seen[1..]);
    }
  }

  lemma SettleOther(owners: seq<Owner>, seats: seq<Seat>, e: Event)
    requires !e.Trade?
    ensures Settle(owners, seats, e) == seats
  {
  }
}
