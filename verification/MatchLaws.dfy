/** What price-time matching promises, proved on the sequences of PriceTime. */
module MatchLaws {
  import opened Types
  import opened PriceTime

  /** The resting quantity within the limit of an order from the other side. */
  function CrossQty(opp: Side, s: seq<Rest>, limit: int): nat {
    if s == [] then 0 else (if Crosses(opp, limit, s[0].price) then s[0].qty else 0) + CrossQty(opp, s[1..], limit)
  }

  lemma RankedTail(side: Side, s: seq<Rest>)
    requires Ranked(side, s) && s != []
    ensures Ranked(side, s[1..])
  {
  }

  /** When the front of a ranked side is out of reach, so is everything behind it. */
  lemma {:induction false} NothingCrosses(opp: Side, s: seq<Rest>, limit: int)
    requires Ranked(opp, s) && (s != [] ==> !Crosses(opp, limit, s[0].price))
    ensures CrossQty(opp, s, limit) == 0
  {
    if s != [] {
      RankedTail(opp, s);
      if |s| > 1 {
        assert !Better(opp, s[1].price, s[0].price);
      }
      NothingCrosses(opp, s[1..], limit);
    }
  }

  /** Quantity is neither created nor lost, on either side of a match. */
  lemma {:induction false} MatchConserves(opp: Side, s: seq<Rest>, limit: int, q: nat)
    ensures var m := Match(opp, s, limit, q);
      FilledQty(m.fills) + m.left == q && Qty(m.rest) + FilledQty(m.fills) == Qty(s)
  {
    if q == 0 || s == [] || !Crosses(opp, limit, s[0].price) {
    } else if q < s[0].qty {
      var m := Match(opp, s, limit, q);
      assert m.rest[1..] == s[1..] && m.fills[1..] == [];
    } else {
      MatchConserves(opp, s[1..], limit, q - s[0].qty);
      var m, m' := Match(opp, s, limit, q), Match(opp, s[1..], limit, q - s[0].qty);
      assert m.fills[1..] == m'.fills;
    }
  }

  /** All that is within the limit is taken, and only that: the remainder is what the side could not provide. */
  lemma {:induction false} MatchTakesAll(opp: Side, s: seq<Rest>, limit: int, q: nat)
    requires Ranked(opp, s)
    ensures var m, c := Match(opp, s, limit, q), CrossQty(opp, s, limit);
      m.left == if c >= q then 0 else q - c
  {
    if q == 0 || s == [] {
    } else if !Crosses(opp, limit, s[0].price) {
      NothingCrosses(opp, s, limit);
    } else if q >= s[0].qty {
      RankedTail(opp, s);
      MatchTakesAll(opp, s[1..], limit, q - s[0].qty);
    }
  }

  /**
   Price-time priority. The fills are the front orders in sequence, each at its own price and all but the
   last for its whole quantity; what stays is the rest of the sequence with at most its front reduced.
   */
  ghost predicate TakesFront(opp: Side, s: seq<Rest>, limit: int, m: Matched) {
    var n := |m.fills|;
    && n <= |s|
    && (forall i | 0 <= i < n :: m.fills[i].restingId == s[i].id && m.fills[i].price == s[i].price)
    && (forall i | 0 <= i < n :: Crosses(opp, limit, s[i].price))
    && (forall i | 0 <= i < n - 1 :: m.fills[i].qty == s[i].qty)
    && (if n == 0 || m.fills[n - 1].qty == s[n - 1].qty then m.rest == s[n..]
        else
          && m.left == 0 && m.fills[n - 1].qty < s[n - 1].qty
          && m.rest == [s[n - 1].(qty := s[n - 1].qty - m.fills[n - 1].qty)] + s[n..])
  }

  lemma TakesFrontStep(opp: Side, s: seq<Rest>, limit: int, m: Matched)
    requires s != [] && Crosses(opp, limit, s[0].price) && TakesFront(opp, s[1..], limit, m)
    ensures TakesFront(opp, s, limit, Matched([Fill(s[0].id, s[0].price, s[0].qty)] + m.fills, m.rest, m.left))
  {
    var n := |m.fills|;
    var fills := [Fill(s[0].id, s[0].price, s[0].qty)] + m.fills;
    assert s[1..][n..] == s[n + 1..];
    assert forall i | 0 < i < |s| :: s[i] == s[1..][i - 1];
    assert forall i | 0 < i < |fills| :: fills[i] == m.fills[i - 1];
    assert n > 0 ==> fills[n] == m.fills[n - 1] && s[n] == s[1..][n - 1];
  }

  lemma {:induction false} MatchIsPrefix(opp: Side, s: seq<Rest>, limit: int, q: nat)
    ensures TakesFront(opp, s, limit, Match(opp, s, limit, q))
  {
    if q > 0 && s != [] && Crosses(opp, limit, s[0].price) && q >= s[0].qty {
      MatchIsPrefix(opp, s[1..], limit, q - s[0].qty);
      TakesFrontStep(opp, s, limit, Match(opp, s[1..], limit, q - s[0].qty));
    }
  }

  /** A remainder means that nothing within the limit is left. */
  lemma {:induction false} MatchStops(opp: Side, s: seq<Rest>, limit: int, q: nat)
    ensures var m := Match(opp, s, limit, q);
      m.left > 0 ==> m.rest == [] || !Crosses(opp, limit, m.rest[0].price)
  {
    if q > 0 && s != [] && Crosses(opp, limit, s[0].price) && q >= s[0].qty {
      MatchStops(opp, s[1..], limit, q - s[0].qty);
    }
  }
}
