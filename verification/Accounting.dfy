/**
 Average-cost accounting of fills, as a reference definition and its laws. The two implementations, the C one
 of pipeline/portfolio.c and the Python one of api/engine_bridge.py, are proved against it in Portfolio.
 */
module Accounting {
  import opened Arith
  import opened Types

  /** One account's position in one instrument: signed quantity, average entry price, realised profit. */
  datatype Account = Account(cash: int, net: int, avg: int, realised: int)

  /** One fill leg: a positive quantity buys. */
  datatype Leg = Leg(d: int, price: int)

  /** C's integer division rounds towards zero, Python's // rounds down. */
  datatype Rounding = Truncate | Floor

  function Abs(x: int): nat {
    if x < 0 then -x else x
  }

  function Div(mode: Rounding, a: int, b: int): int
    requires b > 0
  {
    if mode == Truncate && a < 0 then -(-a / b) else a / b
  }

  function Signed(side: Side, qty: nat): int {
    if side == Bid then qty else -(qty as int)
  }

  // ----- the reference definition

  /** The leg goes the way of the position, or there is no position. */
  predicate Extends(a: Account, d: int) {
    a.net == 0 || (a.net > 0) == (d > 0)
  }

  /** The entry price becomes the rounded average over old and new units. */
  function Extend(mode: Rounding, a: Account, d: int, price: int): Account {
    var net := a.net + d;
    Account(a.cash - d * price, net,
            if net == 0 then 0 else Div(mode, a.avg * Abs(a.net) + price * Abs(d), Abs(net)), a.realised)
  }

  /** Closed units realise the difference to the entry price; the units that stay keep theirs. */
  function Close(a: Account, d: int, price: int): Account {
    Account(a.cash - d * price, a.net + d, if a.net + d == 0 then 0 else a.avg, a.realised - d * (price - a.avg))
  }

  /** A leg that turns the position round closes all of it and opens the rest anew. */
  function Fill(mode: Rounding, a: Account, d: int, price: int): Account {
    if Extends(a, d) then Extend(mode, a, d, price)
    else if Abs(d) <= Abs(a.net) then Close(a, d, price)
    else Extend(mode, Close(a, -a.net, price), a.net + d, price)
  }

  function Run(mode: Rounding, a: Account, legs: seq<Leg>): Account
    decreases |legs|
  {
    if legs == [] then a else Run(mode, Fill(mode, a, legs[0].d, legs[0].price), legs[1..])
  }

  lemma {:induction false} RunConcat(mode: Rounding, a: Account, x: seq<Leg>, y: seq<Leg>)
    ensures Run(mode, a, x + y) == Run(mode, Run(mode, a, x), y)
    decreases |x|
  {
    hide Fill;
    if x == [] {
      assert x + y == y;
    } else {
      assert (x + y)[1..] == x[1..] + y;
      RunConcat(mode, Fill(mode, a, x[0].d, x[0].price), x[1..], y);
    }
  }

  lemma RunFew(mode: Rounding, a: Account, l: Leg, l': Leg)
    ensures Run(mode, a, []) == a && Run(mode, a, [l]) == Fill(mode, a, l.d, l.price)
    ensures Run(mode, a, [l']) == Fill(mode, a, l'.d, l'.price)
    ensures Run(mode, a, [l, l']) == Fill(mode, Fill(mode, a, l.d, l.price), l'.d, l'.price)
  {
    hide Fill;
    assert [l][1..] == [] && [l'][1..] == [] && [l, l'][1..] == [l'];
    var a' := Fill(mode, a, l.d, l.price);
    assert Run(mode, a', [l']) == Fill(mode, a', l'.d, l'.price);
  }

  // ----- division

  lemma DivExact(mode: Rounding, p: int, q: int)
    requires q > 0
    ensures Div(mode, p * q, q) == p
  {
    FloorExact(p, q);
    if p < 0 {
      FloorExact(-p, q);
      assert -(p * q) == -p * q;
    }
  }

  lemma FloorExact(p: int, q: int)
    requires q > 0
    ensures (p * q) / q == p
  {
    FloorUnique(p * q, q, p);
  }

  lemma FloorUnique(n: int, q: int, k: int)
    requires q > 0 && k * q <= n < (k + 1) * q
    ensures n / q == k
  {
    var r := n / q;
    assert n == r * q + n % q;
    if r < k {
      Scale(r + 1, k, q);
    } else if r > k {
      Scale(k + 1, r, q);
    }
  }

  lemma DivBounds(mode: Rounding, n: int, q: int)
    requires q > 0 && n >= 0
    ensures var k := Div(mode, n, q); 0 <= k && k * q <= n < k * q + q
  {
    var k := n / q;
    assert n == k * q + n % q;
    if k < 0 {
      Scale(k, -1, q);
    }
  }

  // ----- what one leg changes

  lemma FillMoves(mode: Rounding, a: Account, d: int, price: int)
    ensures Fill(mode, a, d, price).cash == a.cash - d * price && Fill(mode, a, d, price).net == a.net + d
  {
  }

  /** Cash, position at its entry price and realised profit: what the account has put in. */
  function PaidIn(a: Account): int {
    a.cash + a.net * a.avg - a.realised
  }

  /** Reducing, closing and turning round lose nothing to rounding. */
  lemma PaidInExact(mode: Rounding, a: Account, d: int, price: int)
    requires !Extends(a, d) || a.net == 0
    ensures PaidIn(Fill(mode, a, d, price)) == PaidIn(a)
  {
    if a.net == 0 {
      OpensAt(mode, a, d, price);
    } else if Abs(d) <= Abs(a.net) {
      CloseExact(a, d, price);
    } else {
      CloseExact(a, -a.net, price);
      OpensAt(mode, Close(a, -a.net, price), a.net + d, price);
    }
  }

  lemma CloseExact(a: Account, d: int, price: int)
    ensures PaidIn(Close(a, d, price)) == PaidIn(a)
  {
    if a.net + d == 0 {
      assert d == -a.net;
      assert -d * (price - a.avg) == a.net * price - a.net * a.avg;
    } else {
      assert (a.net + d) * a.avg == a.net * a.avg + d * a.avg;
      assert d * (price - a.avg) == d * price - d * a.avg;
    }
  }

  /** An opening leg sets the entry price to its own. */
  lemma OpensAt(mode: Rounding, a: Account, d: int, price: int)
    requires a.net == 0
    ensures Extend(mode, a, d, price) == Account(a.cash - d * price, d, if d == 0 then 0 else price, a.realised)
    ensures PaidIn(Extend(mode, a, d, price)) == PaidIn(a)
  {
    MulZero(a.avg);
    MulZero(price);
    if d != 0 {
      DivExact(mode, price, Abs(d));
    }
  }

  /** An extending leg loses less than one currency unit per unit held, to the disadvantage of a long position. */
  lemma PaidInRounds(mode: Rounding, a: Account, d: int, price: int)
    requires Extends(a, d) && a.net != 0 && a.avg >= 0 && price >= 0
    ensures var a' := Fill(mode, a, d, price);
      if a.net > 0 then PaidIn(a) - a'.net < PaidIn(a') <= PaidIn(a)
      else PaidIn(a) <= PaidIn(a') < PaidIn(a) - a'.net
  {
    var n, q := a.avg * Abs(a.net) + price * Abs(d), Abs(a.net + d);
    Products(a.avg, Abs(a.net));
    Products(price, Abs(d));
    DivBounds(mode, n, q);
    var k := Div(mode, n, q);
    if a.net > 0 {
      assert (a.net + d) * k == k * q;
      assert n == a.net * a.avg + d * price;
    } else {
      NegMul(k, q);
      NegMul(a.avg, Abs(a.net));
      NegMul(price, Abs(d));
      assert (a.net + d) * k == -(k * q);
      assert n == -(a.net * a.avg) - d * price;
    }
  }

  /** What turning a position round comes to. */
  lemma TurnsTo(mode: Rounding, a: Account, d: int, price: int)
    requires !Extends(a, d) && Abs(d) > Abs(a.net)
    ensures Fill(mode, a, d, price) == Account(a.cash - d * price, a.net + d, price, a.realised + a.net * (price - a.avg))
  {
    hide Div;
    var c := Close(a, -a.net, price);
    NegMul(price, a.net);
    NegMul(price - a.avg, a.net);
    OpensAt(mode, c, a.net + d, price);
    Distribute(a.net, d, price);
  }

  lemma Distribute(x: int, y: int, k: int)
    ensures (x + y) * k == x * k + y * k
  {
  }

  /** Extending a position entered at a price by units at the same price. */
  lemma SamePrice(mode: Rounding, a: Account, d: int)
    requires Extends(a, d) && a.net != 0
    ensures Fill(mode, a, d, a.avg) == Account(a.cash - d * a.avg, a.net + d, a.avg, a.realised)
  {
    hide Div;
    var x, y := Abs(a.net), Abs(d);
    assert Abs(a.net + d) == x + y;
    Spread(a.avg, x, y);
    DivExact(mode, a.avg, x + y);
  }

  /** A first leg that leaves the position on its side, and a second one that turns it round. */
  lemma ReduceThenTurn(mode: Rounding, a: Account, d: int, d': int, price: int)
    requires !Extends(a, d) && d != 0 && (d > 0) == (d' > 0) && Abs(d) < Abs(a.net) < Abs(d + d')
    ensures Fill(mode, Fill(mode, a, d, price), d', price) == Fill(mode, a, d + d', price)
  {
    hide Div;
    var c := Close(a, d, price);
    TurnsTo(mode, a, d + d', price);
    TurnsTo(mode, c, d', price);
    hide Extend;
    Distribute(d, d', price);
    Distribute(a.net, d, price - a.avg);
  }

  /** A first leg that closes the position, and a second one that opens a new one. */
  lemma CloseThenOpen(mode: Rounding, a: Account, d: int, d': int, price: int)
    requires !Extends(a, d) && d == -a.net && (d > 0) == (d' > 0) && d' != 0
    ensures Fill(mode, Fill(mode, a, d, price), d', price) == Fill(mode, a, d + d', price)
  {
    hide Div;
    TurnsTo(mode, a, d + d', price);
    CloseAll(a, price);
    OpensAt(mode, Close(a, d, price), d', price);
    hide Extend;
    Distribute(d, d', price);
  }

  /** A first leg that turns the position round, and a second one that extends it. */
  lemma TurnThenExtend(mode: Rounding, a: Account, d: int, d': int, price: int)
    requires !Extends(a, d) && (d > 0) == (d' > 0) && d' != 0 && Abs(d) > Abs(a.net)
    ensures Fill(mode, Fill(mode, a, d, price), d', price) == Fill(mode, a, d + d', price)
  {
    TurnsTo(mode, a, d, price);
    TurnsTo(mode, a, d + d', price);
    Distribute(d, d', price);
    hide Div; hide Extend; hide Close;
    SamePrice(mode, Fill(mode, a, d, price), d');
  }

  /** Two legs that the position can take. */
  lemma ReduceTwice(mode: Rounding, a: Account, d: int, d': int, price: int)
    requires !Extends(a, d) && d != 0 && (d > 0) == (d' > 0) && d' != 0 && Abs(d + d') <= Abs(a.net)
    ensures Fill(mode, Fill(mode, a, d, price), d', price) == Fill(mode, a, d + d', price)
  {
    hide Extend;
    Distribute(d, d', price);
    Distribute(d, d', price - a.avg);
  }

  /** A leg against the position may be split into any two legs at the same price. */
  lemma CloseSplits(mode: Rounding, a: Account, d: int, d': int, price: int)
    requires !Extends(a, d) && d != 0 && (d > 0) == (d' > 0) && d' != 0
    ensures Fill(mode, Fill(mode, a, d, price), d', price) == Fill(mode, a, d + d', price)
  {
    hide Fill;
    if Abs(d + d') <= Abs(a.net) {
      ReduceTwice(mode, a, d, d', price);
    } else if Abs(d) > Abs(a.net) {
      TurnThenExtend(mode, a, d, d', price);
    } else if d == -a.net {
      CloseThenOpen(mode, a, d, d', price);
    } else {
      ReduceThenTurn(mode, a, d, d', price);
    }
  }

  lemma CloseAll(a: Account, price: int)
    ensures Close(a, -a.net, price) == Account(a.cash + a.net * price, 0, 0, a.realised + a.net * (price - a.avg))
  {
    NegMul(price, a.net);
    NegMul(price - a.avg, a.net);
  }

  // ----- sequences of legs

  /** What rounding may have cost at most, on the legs that extend an open position of the given direction. */
  function Slack(mode: Rounding, a: Account, legs: seq<Leg>, long: bool): nat
    decreases |legs|
  {
    if legs == [] then 0
    else
      var a' := Fill(mode, a, legs[0].d, legs[0].price);
      (if Extends(a, legs[0].d) && a.net != 0 && (a.net > 0) == long then Pred(Abs(a'.net)) else 0)
      + Slack(mode, a', legs[1..], long)
  }

  function Pred(n: nat): nat {
    if n == 0 then 0 else n - 1
  }

  /** Legs as a book produces them: something is traded, at a positive price. */
  ghost predicate Proper(legs: seq<Leg>) {
    forall i | 0 <= i < |legs| :: legs[i].d != 0 && legs[i].price > 0
  }

  lemma AvgStays(mode: Rounding, a: Account, d: int, price: int)
    requires a.avg >= 0 && price > 0
    ensures Fill(mode, a, d, price).avg >= 0
  {
    Products(a.avg, Abs(a.net));
    Products(price, Abs(d));
    if Extends(a, d) {
      if a.net + d != 0 {
        DivBounds(mode, a.avg * Abs(a.net) + price * Abs(d), Abs(a.net + d));
      }
    } else if Abs(d) > Abs(a.net) {
      TurnsTo(mode, a, d, price);
    }
  }

  /**
   The profit identity with its rounding bound: cash plus the position at its entry price minus realised
   profit moves only by the rounding of extending legs, down for long positions and up for short ones.
   */
  lemma {:induction false} PaidInRun(mode: Rounding, a: Account, legs: seq<Leg>)
    requires Proper(legs) && a.avg >= 0
    ensures PaidIn(a) - Slack(mode, a, legs, true) <= PaidIn(Run(mode, a, legs))
      <= PaidIn(a) + Slack(mode, a, legs, false)
    decreases |legs|
  {
    if legs != [] {
      var d, p := legs[0].d, legs[0].price;
      assert d != 0 && p > 0;
      AvgStays(mode, a, d, p);
      FillMoves(mode, a, d, p);
      var a' := Fill(mode, a, d, p);
      PaidInRun(mode, a', legs[1..]);
      if Extends(a, d) && a.net != 0 {
        PaidInRounds(mode, a, d, p);
      } else {
        PaidInExact(mode, a, d, p);
      }
    }
  }

  /** While a position is open its entry price lies between the extreme prices traded. */
  lemma AvgInRange(mode: Rounding, a: Account, d: int, price: int, lo: int, hi: int)
    requires 0 <= lo <= price <= hi && d != 0 && (a.net != 0 ==> lo <= a.avg <= hi)
    ensures var a' := Fill(mode, a, d, price); a'.net != 0 ==> lo <= a'.avg <= hi
  {
    hide Div;
    if a.net == 0 {
      OpensAt(mode, a, d, price);
    } else if Extends(a, d) {
      Weighted(mode, a.avg, Abs(a.net), price, Abs(d), lo, hi);
    } else if Abs(d) > Abs(a.net) {
      TurnsTo(mode, a, d, price);
    }
  }

  /** A weighted average lies between its terms' bounds. */
  lemma Weighted(mode: Rounding, a: int, x: nat, b: int, y: nat, lo: int, hi: int)
    requires 0 <= lo && lo <= a <= hi && lo <= b <= hi && x + y > 0
    ensures lo <= Div(mode, a * x + b * y, x + y) <= hi
  {
    hide Div;
    Scale(lo, a, x);
    Scale(lo, b, y);
    Scale(a, hi, x);
    Scale(b, hi, y);
    Products(lo, x + y);
    Spread(lo, x, y);
    Spread(hi, x, y);
    Between(mode, a * x + b * y, x + y, lo, hi);
  }

  lemma Spread(k: int, x: int, y: int)
    ensures k * (x + y) == k * x + k * y
  {
  }

  lemma Between(mode: Rounding, n: int, q: int, lo: int, hi: int)
    requires q > 0 && 0 <= lo * q <= n <= hi * q
    ensures lo <= Div(mode, n, q) <= hi
  {
    DivBounds(mode, n, q);
    var k := Div(mode, n, q);
    if k < lo {
      Scale(k + 1, lo, q);
    }
    if k > hi {
      Scale(hi + 1, k, q);
    }
  }

  lemma {:induction false} AvgInRangeRun(mode: Rounding, a: Account, legs: seq<Leg>, lo: int, hi: int)
    requires Proper(legs) && 0 <= lo && (a.net != 0 ==> lo <= a.avg <= hi)
    requires forall i | 0 <= i < |legs| :: lo <= legs[i].price <= hi
    ensures var a' := Run(mode, a, legs); a'.net != 0 ==> lo <= a'.avg <= hi
    decreases |legs|
  {
    if legs != [] {
      AvgInRange(mode, a, legs[0].d, legs[0].price, lo, hi);
      AvgInRangeRun(mode, Fill(mode, a, legs[0].d, legs[0].price), legs[1..], lo, hi);
    }
  }

  // ----- the two roundings

  /** When the two accountings give the same account after one leg. */
  lemma RoundingsAgreeIff(a: Account, d: int, price: int)
    ensures Fill(Truncate, a, d, price) == Fill(Floor, a, d, price) <==>
      || !Extends(a, d) || a.net == 0 || a.avg * Abs(a.net) + price * Abs(d) >= 0
      || (a.avg * Abs(a.net) + price * Abs(d)) % Abs(a.net + d) == 0
  {
    if a.net == 0 {
      OpensAt(Truncate, a, d, price);
      OpensAt(Floor, a, d, price);
    } else if Extends(a, d) {
      NegDiv(a.avg * Abs(a.net) + price * Abs(d), Abs(a.net + d));
    } else if Abs(d) > Abs(a.net) {
      TurnsTo(Truncate, a, d, price);
      TurnsTo(Floor, a, d, price);
    }
  }

  lemma NegDiv(n: int, q: int)
    requires q > 0
    ensures n < 0 ==> (-(-n / q) == n / q <==> n % q == 0)
  {
    var k := n / q;
    assert n == k * q + n % q;
    assert -n == (-k) * q - n % q;
    if n % q == 0 {
      FloorUnique(-n, q, -k);
    } else {
      assert (-k - 1) * q == (-k) * q - q;
      FloorUnique(-n, q, -k - 1);
    }
  }

  /** On fills as a book produces them the two accountings never part. */
  lemma {:induction false} RoundingsAgreeRun(a: Account, legs: seq<Leg>)
    requires Proper(legs) && a.avg >= 0
    ensures Run(Truncate, a, legs) == Run(Floor, a, legs)
    decreases |legs|
  {
    if legs != [] {
      var d, p := legs[0].d, legs[0].price;
      Products(a.avg, Abs(a.net));
      Products(p, Abs(d));
      RoundingsAgreeIff(a, d, p);
      AvgStays(Floor, a, d, p);
      RoundingsAgreeRun(Fill(Floor, a, d, p), legs[1..]);
    }
  }

  /** With prices below zero they part: a unit bought at -1, then one at -2. */
  lemma RoundingsCanDiffer()
    ensures var b := Fill(Floor, Account(0, 0, 0, 0), 1, -1);
      && b == Fill(Truncate, Account(0, 0, 0, 0), 1, -1)
      && Fill(Truncate, b, 1, -2) != Fill(Floor, b, 1, -2)
  {
    hide Fill; hide Div;
    UnitAtMinusOne(Truncate);
    UnitAtMinusOne(Floor);
    RoundingsAgreeIff(Account(1, 1, -1, 0), 1, -2);
  }

  lemma UnitAtMinusOne(mode: Rounding)
    ensures Fill(mode, Account(0, 0, 0, 0), 1, -1) == Account(1, 1, -1, 0)
  {
    hide Div;
    OpensAt(mode, Account(0, 0, 0, 0), 1, -1);
  }

  // ----- both legs of one trade, in either order

  lemma FloorIs(v: int, d: int, m: int)
    requires m > 0
    ensures (v * m + d) / m == v <==> 0 <= d < m
  {
    var k := (v * m + d) / m;
    assert v * m + d == k * m + (v * m + d) % m;
    if 0 <= d < m {
      assert (v + 1) * m == v * m + m;
      FloorUnique(v * m + d, m, v);
    }
  }

  /** The average that extending a position of m units by q units comes to. */
  function Blend(avg: int, m: nat, price: int, q: nat): int
    requires m + q > 0
  {
    (avg * m + price * q) / (m + q)
  }

  /** The entry price after buying and selling q at p, for a position of m units entered at v: extended first, or reduced first. */
  lemma EitherOrder(v: int, p: int, q: int, m: int)
    requires m > 0 && q > 0
    ensures var x := Blend(v, m, p, q);
      var y, closed := if q < m then Blend(v, m - q, p, q) else p, if q < m then q else m;
      (x == y && q * (p - x) == closed * (p - v)) <==> 0 <= (p - v) * q < m
  {
    var d, x := (p - v) * q, (v * m + p * q) / (m + q);
    assert v * m + p * q == v * (m + q) + d;
    FloorIs(v, d, m + q);
    if q < m {
      assert v * (m - q) + p * q == v * m + d;
      FloorIs(v, d, m);
      SameFactor(q, p - x, p - v);
    } else {
      SameFactor(m, 0, p - v);
      if 0 <= d < m {
        SmallProduct(p - v, q);
      }
      MulZero(q);
      MulZero(m);
    }
  }

  lemma SameFactor(k: int, a: int, b: int)
    requires k != 0
    ensures k * a == k * b <==> a == b
  {
    if a < b {
      assert k * b == k * a + k * (b - a);
      NonZero(k, b - a);
    } else if b < a {
      assert k * a == k * b + k * (a - b);
      NonZero(k, a - b);
    }
  }

  lemma NonZero(a: int, b: int)
    requires a != 0 && b != 0
    ensures a * b != 0
  {
  }

  lemma SmallProduct(a: int, q: int)
    requires q > 0 && 0 <= a * q < q
    ensures a == 0
  {
    if a >= 1 {
      Scale(1, a, q);
    } else if a < 0 {
      Scale(a, -1, q);
    }
  }

  lemma ExtendIs(mode: Rounding, a: Account, d: int, price: int)
    requires a.net != 0 && d != 0 && Extends(a, d) && a.avg >= 0 && price > 0
    ensures Fill(mode, a, d, price)
      == Account(a.cash - d * price, a.net + d, Blend(a.avg, Abs(a.net), price, Abs(d)), a.realised)
  {
    Products(a.avg, Abs(a.net));
    Products(price, Abs(d));
    assert Abs(a.net + d) == Abs(a.net) + Abs(d);
  }

  lemma ReduceIs(mode: Rounding, a: Account, d: int, price: int)
    requires !Extends(a, d) && Abs(d) < Abs(a.net)
    ensures Fill(mode, a, d, price) == Account(a.cash - d * price, a.net + d, a.avg, a.realised - d * (price - a.avg))
  {
    hide Extend;
  }

  /** Extending and then reducing by the same units. */
  lemma OutAndBack(mode: Rounding, a: Account, d: int, price: int)
    requires a.net != 0 && d != 0 && (a.net > 0) == (d > 0) && a.avg >= 0 && price > 0
    ensures var x := Blend(a.avg, Abs(a.net), price, Abs(d));
      Fill(mode, Fill(mode, a, d, price), -d, price) == Account(a.cash, a.net, x, a.realised + d * (price - x))
  {
    hide Fill; hide Blend;
    var x := Blend(a.avg, Abs(a.net), price, Abs(d));
    ExtendIs(mode, a, d, price);
    ReduceIs(mode, Fill(mode, a, d, price), -d, price);
    NegMul(price, d);
    NegMul(price - x, d);
  }

  /** Reducing and then extending by the same units. */
  lemma InAndBack(mode: Rounding, a: Account, d: int, price: int)
    requires a.net != 0 && d != 0 && (a.net > 0) != (d > 0) && a.avg >= 0 && price > 0 && Abs(d) < Abs(a.net)
    ensures Fill(mode, Fill(mode, a, d, price), -d, price)
      == Account(a.cash, a.net, Blend(a.avg, Abs(a.net) - Abs(d), price, Abs(d)), a.realised - d * (price - a.avg))
  {
    hide Fill; hide Blend;
    ReduceIs(mode, a, d, price);
    ExtendIs(mode, Fill(mode, a, d, price), -d, price);
    NegMul(price, d);
  }

  /** Closing or turning round, and then coming back by the same units: the position is entered anew. */
  lemma ThroughAndBack(mode: Rounding, a: Account, d: int, price: int)
    requires a.net != 0 && d != 0 && (a.net > 0) != (d > 0) && Abs(d) >= Abs(a.net)
    ensures Fill(mode, Fill(mode, a, d, price), -d, price)
      == Account(a.cash, a.net, price, a.realised + a.net * (price - a.avg))
  {
    hide Div;
    NegMul(price, d);
    if d == -a.net {
      CloseAll(a, price);
      OpensAt(mode, Close(a, d, price), -d, price);
    } else {
      TurnsTo(mode, a, d, price);
      hide Extend;
      TurnsTo(mode, Fill(mode, a, d, price), -d, price);
      MulZero(a.net + d);
    }
  }

  /**
   An account that sells to itself as the aggressor: the C side takes the sale first, the Python side the purchase.
   The two orders give the same account exactly when no position is open, or the units sold gain something between
   nothing and less than one currency unit per unit held.
   */
  lemma SelfSaleIff(a: Account, qty: int, price: int)
    requires a.avg >= 0 && price > 0 && qty > 0
    ensures Fill(Truncate, Fill(Truncate, a, -qty, price), qty, price) == Fill(Floor, Fill(Floor, a, qty, price), -qty, price)
      <==> a.net == 0 || 0 <= (price - a.avg) * qty < Abs(a.net)
  {
    hide Fill;
    if a.net == 0 {
      FromNothing(Truncate, a, -qty, price);
      FromNothing(Floor, a, qty, price);
    } else if a.net > 0 {
      LongSelfSale(a, qty, price);
    } else {
      ShortSelfSale(a, qty, price);
    }
  }

  lemma LongSelfSale(a: Account, qty: int, price: int)
    requires a.avg >= 0 && price > 0 && qty > 0 && a.net > 0
    ensures Fill(Truncate, Fill(Truncate, a, -qty, price), qty, price) == Fill(Floor, Fill(Floor, a, qty, price), -qty, price)
      <==> 0 <= (price - a.avg) * qty < a.net
  {
    hide Fill; hide Blend;
    EitherOrder(a.avg, price, qty, a.net);
    OutAndBack(Floor, a, qty, price);
    if qty < a.net {
      InAndBack(Truncate, a, -qty, price);
      NegMul(price - a.avg, qty);
    } else {
      ThroughAndBack(Truncate, a, -qty, price);
    }
  }

  lemma ShortSelfSale(a: Account, qty: int, price: int)
    requires a.avg >= 0 && price > 0 && qty > 0 && a.net < 0
    ensures Fill(Truncate, Fill(Truncate, a, -qty, price), qty, price) == Fill(Floor, Fill(Floor, a, qty, price), -qty, price)
      <==> 0 <= (price - a.avg) * qty < -a.net
  {
    hide Fill; hide Blend;
    EitherOrder(a.avg, price, qty, -a.net);
    OutAndBack(Truncate, a, -qty, price);
    NegMul(price - Blend(a.avg, -a.net, price, qty), qty);
    if qty < -a.net {
      InAndBack(Floor, a, qty, price);
    } else {
      ThroughAndBack(Floor, a, qty, price);
      NegMul(price - a.avg, a.net);
    }
  }

  lemma FromNothing(mode: Rounding, a: Account, d: int, price: int)
    requires a.net == 0 && d != 0
    ensures Fill(mode, Fill(mode, a, d, price), -d, price) == Account(a.cash, 0, 0, a.realised)
  {
    hide Div;
    OpensAt(mode, a, d, price);
    NegMul(price, d);
    MulZero(d);
  }

  /** Three units entered at 5, and two of them sold to oneself at 10. */
  lemma SelfSaleDiffers()
    ensures var a := Account(0, 3, 5, 0);
      Fill(Truncate, Fill(Truncate, a, -2, 10), 2, 10) != Fill(Floor, Fill(Floor, a, 2, 10), -2, 10)
  {
    hide Fill;
    SelfSaleIff(Account(0, 3, 5, 0), 2, 10);
  }

  // ----- marking to market

  /** Cash and position at a mark. */
  function Worth(a: Account, mark: int): int {
    a.cash + a.net * mark
  }

  function Gain(legs: seq<Leg>, mark: int): int {
    if legs == [] then 0 else legs[0].d * (mark - legs[0].price) + Gain(legs[1..], mark)
  }

  /** The score of an account is the sum over its legs, whatever the roundings did to entry prices. */
  lemma {:induction false} WorthRun(mode: Rounding, a: Account, legs: seq<Leg>, mark: int)
    ensures Worth(Run(mode, a, legs), mark) == Worth(a, mark) + Gain(legs, mark)
    decreases |legs|
  {
    if legs != [] {
      var d, p := legs[0].d, legs[0].price;
      FillMoves(mode, a, d, p);
      WorthRun(mode, Fill(mode, a, d, p), legs[1..], mark);
      Distribute(a.net, d, mark);
      assert d * (mark - p) == d * mark - d * p;
    }
  }

  lemma {:induction false} GainSplit(x: seq<Leg>, y: seq<Leg>, mark: int)
    ensures Gain(x + y, mark) == Gain(x, mark) + Gain(y, mark)
  {
    if x == [] {
      assert x + y == y;
    } else {
      assert (x + y)[1..] == x[1..] + y;
      GainSplit(x[1..], y, mark);
    }
  }

  lemma TakeOne(x: seq<Leg>, l: Leg, y: seq<Leg>)
    ensures multiset(x + y) == multiset(x + [l] + y) - multiset{l}
  {
  }

  lemma GainTake(x: seq<Leg>, l: Leg, y: seq<Leg>, mark: int)
    ensures Gain(x + [l] + y, mark) == l.d * (mark - l.price) + Gain(x + y, mark)
  {
    GainSplit(x, y, mark);
    GainSplit(x + [l], y, mark);
    GainSplit(x, [l], mark);
    assert Gain([l], mark) == l.d * (mark - l.price) + Gain([l][1..], mark);
  }

  lemma SplitAt(x: seq<Leg>, l: Leg) returns (a: seq<Leg>, b: seq<Leg>)
    requires l in multiset(x)
    ensures x == a + [l] + b
  {
    var k :| 0 <= k < |x| && x[k] == l;
    a, b := x[..k], x[k + 1..];
  }

  /** The order of the legs does not matter. */
  lemma {:induction false} GainOrder(x: seq<Leg>, y: seq<Leg>, mark: int)
    requires multiset(x) == multiset(y)
    ensures Gain(x, mark) == Gain(y, mark)
    decreases |x|
  {
    hide Gain;
    if x == [] {
      assert |y| == |multiset(y)|;
    } else {
      var l, t := x[0], x[1..];
      assert x == [] + [l] + t && [] + t == t;
      assert l in multiset(x);
      var a, b := SplitAt(y, l);
      TakeOne([], l, t);
      TakeOne(a, l, b);
      GainOrder(t, a + b, mark);
      GainTake([], l, t, mark);
      GainTake(a, l, b, mark);
    }
  }

  lemma WorthOrder(mode: Rounding, mode': Rounding, a: Account, x: seq<Leg>, y: seq<Leg>, mark: int)
    requires multiset(x) == multiset(y)
    ensures Worth(Run(mode, a, x), mark) == Worth(Run(mode', a, y), mark)
  {
    WorthRun(mode, a, x, mark);
    WorthRun(mode', a, y, mark);
    GainOrder(x, y, mark);
  }

  /** Both legs of a trade: what one account gains the other loses. */
  lemma TwoLegs(mode: Rounding, a: Account, b: Account, side: Side, price: int, qty: nat)
    ensures var a', b' := Fill(mode, a, Signed(side, qty), price), Fill(mode, b, Signed(side.Opposite(), qty), price);
      a'.cash + b'.cash == a.cash + b.cash && a'.net + b'.net == a.net + b.net
  {
    hide Fill;
    FillMoves(mode, a, Signed(side, qty), price);
    FillMoves(mode, b, Signed(side.Opposite(), qty), price);
    NegMul(price, qty);
  }
}
