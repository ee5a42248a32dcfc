/** The two implementations of fill accounting, proved against one reference definition. */
module Portfolio {
  import opened Arith
  import opened Types
  import opened Accounting
  import Registry

  lemma MulAbs(price: int, qty: nat)
    ensures -(price * qty) == -(qty as int) * price == -price * qty && price * qty == qty * price
  {
    NegMul(price, qty);
  }

  /** portfolio_t of pipeline/portfolio.h, for one instrument. */
  class Portfolio {
    var accountId: nat
    var cash: int
    var netQty: int
    var avgPrice: int
    var realised: int

    function Account(): Account
      reads this
    {
      Accounting.Account(cash, netQty, avgPrice, realised)
    }

    /** A place in the account table, not set up yet. */
    constructor ()
      ensures accountId == 0
    {
      accountId, cash, netQty, avgPrice, realised := 0, 0, 0, 0, 0;
    }

    /** portfolio_init. */
    method Init(id: nat, startingCash: int)
      modifies this
      ensures accountId == id && Account() == Accounting.Account(startingCash, 0, 0, 0)
    {
      accountId, cash, netQty, avgPrice, realised := id, startingCash, 0, 0, 0;
    }

    /** portfolio_on_fill, with C's integer division. */
    method OnFill(side: Side, price: int, qty: nat)
      modifies this
      ensures accountId == old(accountId)
      ensures Account() == Fill(Truncate, old(Account()), Signed(side, qty), price)
    {
      hide Div;
      ghost var a := Account();
      var signed: int := if side == Bid then qty else -(qty as int);
      var notional := price * qty;
      MulAbs(price, qty);
      cash := cash + (if side == Bid then -notional else notional);
      var oldQty := netQty;
      var newQty := oldQty + signed;
      if oldQty == 0 || (oldQty > 0) == (signed > 0) {
        var totalQty := Abs(newQty);
        avgPrice := if totalQty != 0 then Div(Truncate, avgPrice * Abs(oldQty) + price * qty, totalQty) else 0;
      } else {
        var closeQty := if Abs(signed) < Abs(oldQty) then Abs(signed) else Abs(oldQty);
        var perUnit := if oldQty > 0 then price - avgPrice else avgPrice - price;
        Realises(a, signed, price, closeQty);
        realised := realised + perUnit * closeQty;
        if Abs(signed) > Abs(oldQty) {
          TurnsTo(Truncate, a, signed, price);
          avgPrice := price;
        }
        if newQty == 0 {
          avgPrice := 0;
        }
      }
      netQty := newQty;
    }

    /** portfolio_unrealised_pnl: with the realised profit it is the whole profit, up to the rounding of entry prices. */
    function Unrealised(mark: int): (u: int)
      reads this
      ensures mark != 0 ==> realised + u == Worth(Account(), mark) - PaidIn(Account())
    {
      if netQty == 0 || mark == 0 then 0
      else
        UnrealisedIs(netQty, mark, avgPrice);
        (mark - avgPrice) * netQty
    }
  }

  lemma UnrealisedIs(net: int, mark: int, avg: int)
    ensures (mark - avg) * net == net * mark - net * avg
  {
  }

  /** The profit per unit times the units closed, in the signs of the implementations and of the definition. */
  lemma Realises(a: Account, d: int, price: int, closed: nat)
    requires !Extends(a, d) && closed == if Abs(d) < Abs(a.net) then Abs(d) else Abs(a.net)
    ensures var per := if a.net > 0 then price - a.avg else a.avg - price;
      per * closed == if Abs(d) <= Abs(a.net) then -d * (price - a.avg) else a.net * (price - a.avg)
  {
    NegMul(price - a.avg, closed);
    NegMul(closed, price - a.avg);
  }

  /** A leg, case by case. */
  lemma LegCases(mode: Rounding, a: Account, d: int, price: int)
    requires d != 0
    ensures var a' := Fill(mode, a, d, price);
      && a'.cash == a.cash - d * price && a'.net == a.net + d
      && (Extends(a, d) ==>
            && a'.realised == a.realised
            && a'.avg == Div(mode, a.avg * Abs(a.net) + price * Abs(d), Abs(a.net) + Abs(d)))
    ensures var a', closed := Fill(mode, a, d, price), if Abs(a.net) < Abs(d) then Abs(a.net) else Abs(d);
      !Extends(a, d) ==>
        && a'.realised == a.realised + (if a.net > 0 then price - a.avg else a.avg - price) * closed
        && a'.avg == if a'.net == 0 then 0 else if (a.net > 0) != (a'.net > 0) then price else a.avg
  {
    hide Div;
    FillMoves(mode, a, d, price);
    if !Extends(a, d) {
      Realises(a, d, price, if Abs(a.net) < Abs(d) then Abs(a.net) else Abs(d));
      if Abs(d) > Abs(a.net) {
        TurnsTo(mode, a, d, price);
      }
    }
  }

  // ----- the Python side

  const DEFAULT_CASH: int := 10_000_000

  datatype Position = Position(net: int, avg: int)

  datatype Holdings = Holdings(cash: int, realised: int, positions: map<string, Position>)

  /** The account of one user in one symbol, as it is or would be created. */
  function AccountIn(portfolios: map<nat, Holdings>, user: nat, symbol: string): Account {
    if user !in portfolios then Account(DEFAULT_CASH, 0, 0, 0)
    else
      var h := portfolios[user];
      if symbol !in h.positions then Account(h.cash, 0, 0, h.realised)
      else Account(h.cash, h.positions[symbol].net, h.positions[symbol].avg, h.realised)
  }

  /** What one published message means for an account: of a trade, the purchase first and then the sale. */
  function MessageLegs(m: Registry.Message, account: nat): seq<Leg> {
    if !m.TradeMsg? then []
    else
      var buyer := if m.aggressorSide == Bid then m.aggressorAccount else m.restingAccount;
      var seller := if m.aggressorSide == Bid then m.restingAccount else m.aggressorAccount;
      (if buyer == account then [Leg(m.tradeQty, m.tradePrice)] else [])
      + (if seller == account then [Leg(-(m.tradeQty as int), m.tradePrice)] else [])
  }

  function StreamLegs(msgs: seq<Registry.Message>, account: nat): seq<Leg>
    decreases |msgs|
  {
    if msgs == [] then [] else StreamLegs(msgs[..|msgs| - 1], account) + MessageLegs(msgs[|msgs| - 1], account)
  }

  /** Another leg of one account. */
  ghost predicate TookLeg(p: map<nat, Holdings>, p': map<nat, Holdings>, account: nat, symbol: string, d: int, price: int) {
    forall u | u != 0 :: AccountIn(p', u, symbol)
      == if u == account then Fill(Floor, AccountIn(p, u, symbol), d, price) else AccountIn(p, u, symbol)
  }

  lemma TookBoth(p: map<nat, Holdings>, p1: map<nat, Holdings>, p2: map<nat, Holdings>, symbol: string, m: Registry.Message)
    requires m.TradeMsg?
    requires var buyer := if m.aggressorSide == Bid then m.aggressorAccount else m.restingAccount;
      TookLeg(p, p1, buyer, symbol, m.tradeQty, m.tradePrice)
    requires var seller := if m.aggressorSide == Bid then m.restingAccount else m.aggressorAccount;
      TookLeg(p1, p2, seller, symbol, -(m.tradeQty as int), m.tradePrice)
    ensures forall u | u != 0 ::
      AccountIn(p2, u, symbol) == Run(Floor, AccountIn(p, u, symbol), MessageLegs(m, u))
  {
    hide Fill; hide AccountIn;
    forall u | u != 0
      ensures AccountIn(p2, u, symbol) == Run(Floor, AccountIn(p, u, symbol), MessageLegs(m, u))
    {
      var a, b := Leg(m.tradeQty, m.tradePrice), Leg(-(m.tradeQty as int), m.tradePrice);
      RunFew(Floor, AccountIn(p, u, symbol), a, b);
      assert [a] + [] == [a] && [] + [b] == [b] && [a] + [b] == [a, b];
      assert AccountIn(p1, u, symbol) == AccountIn(p, u, symbol)
        || AccountIn(p1, u, symbol) == Fill(Floor, AccountIn(p, u, symbol), a.d, a.price);
    }
  }

  lemma NoLegs(m: Registry.Message)
    requires !m.TradeMsg?
    ensures forall u: nat :: MessageLegs(m, u) == []
  {
  }

  lemma StreamMore(p0: map<nat, Holdings>, p: map<nat, Holdings>, p': map<nat, Holdings>, symbol: string,
                   msgs: seq<Registry.Message>, i: nat)
    requires i < |msgs|
    requires forall u | u != 0 :: AccountIn(p, u, symbol) == Run(Floor, AccountIn(p0, u, symbol), StreamLegs(msgs[..i], u))
    requires forall u | u != 0 :: AccountIn(p', u, symbol) == Run(Floor, AccountIn(p, u, symbol), MessageLegs(msgs[i], u))
    ensures forall u | u != 0 ::
      AccountIn(p', u, symbol) == Run(Floor, AccountIn(p0, u, symbol), StreamLegs(msgs[..i + 1], u))
  {
    hide AccountIn; hide MessageLegs; hide Run;
    assert msgs[..i + 1][..i] == msgs[..i] && msgs[..i + 1][i] == msgs[i];
    forall u | u != 0
      ensures AccountIn(p', u, symbol) == Run(Floor, AccountIn(p0, u, symbol), StreamLegs(msgs[..i + 1], u))
    {
      RunConcat(Floor, AccountIn(p0, u, symbol), StreamLegs(msgs[..i], u), MessageLegs(msgs[i], u));
    }
  }

  /** The portfolios of api/engine_bridge.py: cash and realised profit per user, positions per user and symbol. */
  class Ledger {
    var portfolios: map<nat, Holdings>

    constructor ()
      ensures portfolios == map[]
    {
      portfolios := map[];
    }

    /** _portfolio_for. */
    method PortfolioFor(user: nat) returns (h: Holdings)
      modifies this
      ensures user in portfolios && portfolios[user] == h
      ensures portfolios == if user in old(portfolios) then old(portfolios) else old(portfolios)[user := h]
      ensures user !in old(portfolios) ==> h == Holdings(DEFAULT_CASH, 0, map[])
    {
      if user !in portfolios {
        portfolios := portfolios[user := Holdings(DEFAULT_CASH, 0, map[])];
      }
      h := portfolios[user];
    }

    /** _apply_fill. Fills have a positive quantity: nothing is divided by zero. */
    method ApplyFill(account: nat, symbol: string, isBuy: bool, price: int, qty: nat)
      requires qty > 0
      modifies this
      ensures account == 0 ==> portfolios == old(portfolios)
      ensures account != 0 ==>
        (var a := AccountIn(old(portfolios), account, symbol);
         AccountIn(portfolios, account, symbol) == Fill(Floor, a, Signed(if isBuy then Bid else Ask, qty), price))
      ensures forall u | u != account :: u in portfolios <==> u in old(portfolios)
      ensures forall u | u != account && u in portfolios :: portfolios[u] == old(portfolios)[u]
      ensures account != 0 ==> forall s | s != symbol :: SamePosition(old(portfolios), portfolios, account, s)
    {
      hide Div; hide Fill;
      if account == 0 {
        return;
      }
      ghost var a := AccountIn(portfolios, account, symbol);
      LegCases(Floor, a, Signed(if isBuy then Bid else Ask, qty), price);
      var h := PortfolioFor(account);
      var pos := if symbol in h.positions then h.positions[symbol] else Position(0, 0);
      MulAbs(price, qty);
      var cash := h.cash + (if isBuy then -price * qty else price * qty);
      var signed: int := if isBuy then qty else -(qty as int);
      var net, realised := pos.net, h.realised;
      if net == 0 || (net > 0) == isBuy {
        var total := Abs(net) + qty;
        pos := Position(net + signed, Div(Floor, pos.avg * Abs(net) + price * qty, total));
      } else {
        var closed := if Abs(net) < qty then Abs(net) else qty;
        var perUnit := if net > 0 then price - pos.avg else pos.avg - price;
        realised := realised + perUnit * closed;
        pos := pos.(net := net + signed);
        if pos.net == 0 {
          pos := pos.(avg := 0);
        } else if (net > 0) != (pos.net > 0) {
          pos := pos.(avg := price);
        }
      }
      portfolios := portfolios[account := Holdings(cash, realised, h.positions[symbol := pos])];
    }

    /** _drain, as far as the portfolios go: the buyer's leg of every trade, then the seller's. */
    method Drain(msgs: seq<Registry.Message>, symbol: string)
      requires forall i | 0 <= i < |msgs| && msgs[i].TradeMsg? :: msgs[i].tradeQty > 0
      modifies this
      ensures forall u | u != 0 ::
        AccountIn(portfolios, u, symbol) == Run(Floor, AccountIn(old(portfolios), u, symbol), StreamLegs(msgs, u))
    {
      hide Fill; hide AccountIn; hide MessageLegs; hide SamePosition;
      var i := 0;
      while i < |msgs|
        invariant 0 <= i <= |msgs|
        invariant forall u | u != 0 ::
          AccountIn(portfolios, u, symbol) == Run(Floor, AccountIn(old(portfolios), u, symbol), StreamLegs(msgs[..i], u))
      {
        ghost var p, m := portfolios, msgs[i];
        if msgs[i].TradeMsg? {
          var aggBuys := msgs[i].aggressorSide == Bid;
          var buyer := if aggBuys then msgs[i].aggressorAccount else msgs[i].restingAccount;
          var seller := if aggBuys then msgs[i].restingAccount else msgs[i].aggressorAccount;
          TakeLeg(buyer, symbol, true, msgs[i].tradePrice, msgs[i].tradeQty);
          ghost var p1 := portfolios;
          TakeLeg(seller, symbol, false, msgs[i].tradePrice, msgs[i].tradeQty);
          TookBoth(p, p1, portfolios, symbol, m);
        } else {
          NoLegs(m);
        }
        StreamMore(old(portfolios), p, portfolios, symbol, msgs, i);
        i := i + 1;
      }
      assert msgs[..|msgs|] == msgs;
    }

    /** One leg, seen from every account. */
    method TakeLeg(account: nat, symbol: string, isBuy: bool, price: int, qty: nat)
      requires qty > 0
      modifies this
      ensures TookLeg(old(portfolios), portfolios, account, symbol, Signed(if isBuy then Bid else Ask, qty), price)
    {
      hide Fill; hide SamePosition;
      ApplyFill(account, symbol, isBuy, price, qty);
    }
  }

  /** A fill in one symbol leaves the positions in the others alone. */
  ghost predicate SamePosition(p: map<nat, Holdings>, p': map<nat, Holdings>, user: nat, symbol: string) {
    AccountIn(p', user, symbol).net == AccountIn(p, user, symbol).net
    && AccountIn(p', user, symbol).avg == AccountIn(p, user, symbol).avg
  }

  // ----- the room scoreboard

  /** _player_score: the mark when there is one, else the entry price. */
  function Score(a: Account, start: int, mark: int, marked: bool): int {
    a.cash + a.net * (if marked then mark else a.avg) - start
  }

  /** With a mark the score of a run is the gain of its legs, in whatever order they came. */
  lemma ScoreIsGain(mode: Rounding, start: int, legs: seq<Leg>, shuffled: seq<Leg>, mark: int)
    requires multiset(legs) == multiset(shuffled)
    ensures Score(Run(mode, Account(start, 0, 0, 0), legs), start, mark, true) == Gain(shuffled, mark)
  {
    WorthRun(mode, Account(start, 0, 0, 0), legs, mark);
    GainOrder(legs, shuffled, mark);
  }

  /** Without one it is the realised profit, up to the rounding of entry prices. */
  lemma ScoreIsRealised(mode: Rounding, start: int, legs: seq<Leg>)
    requires Proper(legs)
    ensures var a0 := Account(start, 0, 0, 0);
      var a := Run(mode, a0, legs);
      a.realised - Slack(mode, a0, legs, true) <= Score(a, start, 0, false) <= a.realised + Slack(mode, a0, legs, false)
  {
    PaidInRun(mode, Account(start, 0, 0, 0), legs);
  }
}
