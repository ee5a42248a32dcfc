/** What an admitted message does in the pipeline, by its own codes and numbers. */
module PipelineAnswers {
  import opened Types
  import opened EngineSpec
  import opened PipelineSpec
  import G = GatewaySpec

  /** Which messages validation stops. */
  predicate Stopped(o: G.Raw) {
    o.action == 1 &&
    (|| o.kind > 5
     || (o.kind in {0, 2, 3} && o.price == 0)
     || (o.kind == 1 && o.price != 0)
     || (o.kind == 4 && (o.trigger == 0 || o.price != 0))
     || (o.kind == 5 && (o.trigger == 0 || o.price == 0)))
  }

  /** A message stopped by validation, or by the risk check of a known account, changes nothing. */
  lemma StoppedLeaves(p: Pipe, o: G.Raw, expiry: nat, riskOk: bool, seen: seq<Event>)
    ensures Stopped(o) || (1 <= o.account <= |p.seats| && p.seats[o.account - 1].Taken? && !riskOk)
      ==> Handle(p, o, expiry, riskOk, seen) == p
    ensures Passes(p, o, riskOk)
      <==> !(Stopped(o) || (1 <= o.account <= |p.seats| && p.seats[o.account - 1].Taken? && !riskOk))
  {
    hide Routed; hide SettleAll;
  }

  /** What the order codes mean to the engine: 0 limit, 1 market, 2 IOC, 3 FOK, 4 stop, 5 stop-limit; side 0 buys. */
  lemma CodesMean(p: Pipe, o: G.Raw, expiry: nat)
    requires o.action == 1 && o.kind <= 5 && o.side <= 1
    ensures var side, c' := if o.side == 0 then Bid else Ask, Routed(p, o, expiry).core;
      c' == match o.kind
        case 0 => Submit(p.core, Request(Limit, side, o.price, o.qty)).core
        case 1 => Submit(p.core, Request(Market, side, o.price, o.qty)).core
        case 2 => Submit(p.core, Request(Ioc, side, o.price, o.qty)).core
        case 3 => Submit(p.core, Request(Fok, side, o.price, o.qty)).core
        case 4 => SubmitStop(p.core, Stop, side, o.trigger, o.price, o.qty, expiry).0
        case _ => SubmitStop(p.core, StopLimit, side, o.trigger, o.price, o.qty, expiry).0
  {
    hide Submit; hide SubmitStop;
  }

  /** The other actions: a cancellation tries the book and then the dormant orders, an amendment the book alone. */
  lemma ActionsMean(p: Pipe, o: G.Raw, expiry: nat)
    requires o.action != 1
    ensures var p' := Routed(p, o, expiry);
      && p' == p.(core := p'.core)
      && (o.action == 2 ==> p'.core == if CancelOrder(p.core, o.target).1 then CancelOrder(p.core, o.target).0
                                       else CancelStop(p.core, o.target).0)
      && (o.action == 3 ==> p'.core == ModifyOrder(p.core, o.target, o.newPrice, o.newQty).0)
      && (o.action > 3 || o.action == 0 ==> p' == p)
  {
    hide CancelOrder; hide CancelStop; hide ModifyOrder;
    FailedCancel(p.core, o.target);
  }

  lemma FailedCancel(c: Core, id: nat)
    ensures !CancelOrder(c, id).1 ==> CancelOrder(c, id).0 == c
  {
  }

  /** Who owns the order: the account of the message, under the engine's id for it. */
  lemma OwnerRemembered(p: Pipe, o: G.Raw, expiry: nat)
    requires o.action == 1
    ensures var p', id := Routed(p, o, expiry), MatchNew(p.core, o, expiry).1;
      p'.owners == if id == 0 || |p.owners| >= 65536 then p.owners else p.owners + [Owner(id, o.account)]
  {
    hide MatchNew;
  }
}
