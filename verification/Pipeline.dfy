/** The consumer side of pipeline/pipeline.c, updated in place and proved against PipelineSpec. */
module Pipeline {
  import opened BookLaws
  import opened EngineSpec
  import opened PipelineSpec
  import opened PipelineLaws
  import G = GatewaySpec
  import Engine
  import EventStream
  import AccountTable
  import Book
  import Gateway
  import Idem = IdemCache
  import Ring

  /** One turn of the loop in pipeline_step, with the inputs that are not part of the state. */
  datatype Turn = Turn(order: G.Raw, expiry: nat, riskOk: bool, seen: seq<Event>)

  function HandleAll(p: Pipe, turns: seq<Turn>): Pipe {
    if turns == [] then p
    else
      var n := |turns| - 1;
      Handle(HandleAll(p, turns[..n]), turns[n].order, turns[n].expiry, turns[n].riskOk, turns[n].seen)
  }

  function SeenIn(turns: seq<Turn>): seq<Event> {
    if turns == [] then [] else SeenIn(turns[..|turns| - 1]) + turns[|turns| - 1].seen
  }

  lemma OneMore(p: Pipe, turns: seq<Turn>, t: Turn)
    ensures HandleAll(p, turns + [t]) == Handle(HandleAll(p, turns), t.order, t.expiry, t.riskOk, t.seen)
    ensures SeenIn(turns + [t]) == SeenIn(turns) + t.seen
    ensures AllFaithful(p, turns) && Faithful(HandleAll(p, turns), t) ==> AllFaithful(p, turns + [t])
  {
    hide Handle; hide Faithful;
    var all := turns + [t];
    assert all[..|turns|] == turns;
    forall i | 0 <= i < |turns|
      ensures all[..i] == turns[..i] && all[i] == turns[i]
    {
    }
  }

  /** What the engine emits in one turn is what was seen. */
  predicate Faithful(p: Pipe, t: Turn) {
    t.seen == if Passes(p, t.order, t.riskOk) then Seen(p, t.order, t.expiry) else []
  }

  predicate AllFaithful(p: Pipe, turns: seq<Turn>) {
    forall i | 0 <= i < |turns| :: Faithful(HandleAll(p, turns[..i]), turns[i])
  }

  predicate SameTotals(p: Pipe, p': Pipe) {
    TotalCash(p'.seats) == TotalCash(p.seats) && TotalNet(p'.seats) == TotalNet(p.seats)
  }

  /** Every message of the step comes from a known account, finds room in the ownership map and fires no stop. */
  ghost predicate EachPlain(p: Pipe, turns: seq<Turn>) {
    forall i | 0 <= i < |turns| :: Plain(HandleAll(p, turns[..i]), turns[i].order)
  }

  lemma {:induction false} TurnsZeroSum(p: Pipe, turns: seq<Turn>)
    requires Settled(p) && AllFaithful(p, turns) && EachPlain(p, turns)
    ensures Settled(HandleAll(p, turns)) && SameTotals(p, HandleAll(p, turns))
  {
    hide Settled; hide Plain; hide Handle; hide TotalCash; hide TotalNet; hide Passes; hide Seen;
    if turns != [] {
      var n := |turns| - 1;
      var t, p1 := turns[n], HandleAll(p, turns[..n]);
      forall i | 0 <= i < n
        ensures turns[..n][..i] == turns[..i] && turns[..n][i] == turns[i]
      {
      }
      TurnsZeroSum(p, turns[..n]);
      assert Plain(p1, t.order) && Faithful(p1, t);
      HandleZeroSum(p1, t.order, t.expiry, t.riskOk);
      if !Passes(p1, t.order, t.riskOk) {
        UnseenTurn(p1, t);
      }
    }
  }

  lemma UnseenTurn(p: Pipe, t: Turn)
    requires !Passes(p, t.order, t.riskOk)
    ensures forall seen: seq<Event> :: Handle(p, t.order, t.expiry, t.riskOk, seen) == p
  {
  }

  /** How far a step has come: the pipeline, what was seen, and what is staged of it. */
  ghost predicate Stepped(p: Pipe, turns: seq<Turn>, now: Pipe, dropped: nat, staged: seq<Event>, lost: nat,
                          staged': seq<Event>, lost': nat) {
    && now == HandleAll(p, turns) && (dropped == 0 ==> AllFaithful(p, turns))
    && (forall i | 0 <= i < |turns| :: |turns[i].seen| < Engine.EVENT_QUEUE_CAP)
    && (|staged| + |SeenIn(turns)| <= EventStream.STAGE_CAP ==> staged' == staged + SeenIn(turns) && lost' == lost)
  }

  /** The turns taken at time now are those of the queue's front; `rest` is still to come. */
  ghost predicate TakenFrom(queue: seq<G.OrderIn>, now: nat, turns: seq<Turn>, rest: seq<G.OrderIn>) {
    && |turns| <= |queue| && queue[|turns|..] == rest
    && (forall i | 0 <= i < |turns| :: turns[i].order == queue[i].order)
    && (forall i | 0 <= i < |turns| :: turns[i].expiry == if turns[i].order.ttl > 0 then now + turns[i].order.ttl else 0)
  }

  lemma TakenNone(queue: seq<G.OrderIn>, now: nat)
    ensures TakenFrom(queue, now, [], queue)
  {
  }

  lemma TakenOne(queue: seq<G.OrderIn>, now: nat, turns: seq<Turn>, rest: seq<G.OrderIn>, t: Turn)
    requires TakenFrom(queue, now, turns, rest) && rest != [] && t.order == rest[0].order
    requires t.expiry == if t.order.ttl > 0 then now + t.order.ttl else 0
    ensures TakenFrom(queue, now, turns + [t], rest[1..])
  {
  }

  lemma TakenAll(queue: seq<G.OrderIn>, now: nat, turns: seq<Turn>)
    requires TakenFrom(queue, now, turns, [])
    ensures |turns| == |queue| && forall i | 0 <= i < |turns| :: turns[i].order == queue[i].order
    ensures forall i | 0 <= i < |turns| ::
      turns[i].expiry == if turns[i].order.ttl > 0 then now + turns[i].order.ttl else 0
  {
  }

  lemma SteppedFirst(p: Pipe, dropped: nat, staged: seq<Event>, lost: nat)
    ensures Stepped(p, [], p, dropped, staged, lost, staged, lost)
  {
    assert staged + [] == staged;
  }

  lemma SteppedIs(p: Pipe, turns: seq<Turn>, now: Pipe, dropped: nat, staged: seq<Event>, lost: nat,
                  staged': seq<Event>, lost': nat)
    requires Stepped(p, turns, now, dropped, staged, lost, staged', lost')
    ensures now == HandleAll(p, turns) && (dropped == 0 ==> AllFaithful(p, turns))
    ensures forall i | 0 <= i < |turns| :: |turns[i].seen| < Engine.EVENT_QUEUE_CAP
    ensures |staged| + |SeenIn(turns)| <= EventStream.STAGE_CAP ==> staged' == staged + SeenIn(turns) && lost' == lost
  {
  }

  lemma SteppedMore(p: Pipe, turns: seq<Turn>, p1: Pipe, dropped1: nat, staged: seq<Event>, lost: nat,
                    staged1: seq<Event>, lost1: nat, t: Turn, dropped2: nat, staged2: seq<Event>, lost2: nat)
    requires Stepped(p, turns, p1, dropped1, staged, lost, staged1, lost1)
    requires dropped1 <= dropped2 && (dropped2 == 0 ==> Faithful(p1, t)) && |t.seen| < Engine.EVENT_QUEUE_CAP
    requires |staged1| + |t.seen| <= EventStream.STAGE_CAP ==> staged2 == staged1 + t.seen && lost2 == lost1
    ensures Stepped(p, turns + [t], Handle(p1, t.order, t.expiry, t.riskOk, t.seen), dropped2, staged, lost, staged2, lost2)
  {
    hide Handle; hide Faithful; hide AllFaithful;
    OneMore(p, turns, t);
    assert staged + (SeenIn(turns) + t.seen) == staged + SeenIn(turns) + t.seen;
  }

  /** A message stopped by validation or risk. */
  lemma StoppedTurn(p: Pipe, t: Turn)
    requires !Passes(p, t.order, t.riskOk) && t.seen == []
    ensures Handle(p, t.order, t.expiry, t.riskOk, t.seen) == p && Faithful(p, t)
  {
  }

  /** A message that went all the way. */
  lemma FullTurn(p: Pipe, t: Turn)
    requires Passes(p, t.order, t.riskOk)
    ensures var p1 := Routed(p, t.order, t.expiry);
      && Handle(p, t.order, t.expiry, t.riskOk, t.seen) == p1.(seats := SettleAll(p1.owners, p1.seats, t.seen))
      && (|p.core.log| <= |p1.core.log| && t.seen == p1.core.log[|p.core.log|..] ==> Faithful(p, t))
  {
    hide Routed; hide SettleAll;
  }

  class Pipeline {
    const gateway: Gateway.Gateway
    const engine: Engine.Engine
    const table: AccountTable.AccountTable
    const idMap: array<Owner>
    var idMapCount: nat
    const stage: EventStream.Stage
    var validated: nat
    var riskRejected: nat
    var sequenced: nat
    var matched: nat
    ghost const repr: set<object>

    /** The parts do not overlap. */
    ghost predicate Apart()
      reads this
    {
      && {this, idMap, stage, stage.buf} <= repr
      && {gateway, engine, table} <= repr && gateway.repr <= repr && engine.repr <= repr && table.repr <= repr
      && gateway.repr !! engine.repr && gateway.repr !! table.repr && engine.repr !! table.repr
      && this !in gateway.repr && this !in engine.repr && this !in table.repr
      && idMap !in gateway.repr && idMap !in engine.repr && idMap !in table.repr
      && stage !in gateway.repr && stage !in engine.repr && stage !in table.repr
      && stage.buf !in gateway.repr && stage.buf !in engine.repr && stage.buf !in table.repr
    }

    ghost predicate Wired()
      reads this, repr
      ensures Wired() ==> Apart() && gateway.Valid() && engine.Valid() && table.Valid() && stage.Valid()
      ensures Wired() ==> idMapCount <= idMap.Length == MAX_OWNERS
      ensures Wired() ==> gateway.repr <= repr && engine.repr <= repr && table.repr <= repr
    {
      && Apart() && idMapCount <= idMap.Length == MAX_OWNERS
      && gateway.Valid() && engine.Valid() && table.Valid() && stage.Valid()
    }

    ghost predicate Valid()
      reads this, repr
      ensures Valid() ==> Wired() && {stage, stage.buf, gateway, engine} <= repr && engine.events.Contents() == []
    {
      Wired() && engine.events.Contents() == []
    }

    ghost function Snap(): (p: Pipe)
      requires Wired()
      reads this, repr
      ensures p.owners == idMap[..idMapCount]
    {
      Pipe(engine.Snap(), idMap[..idMapCount], table.Seats())
    }

    /** pipeline_init: no account is set up yet. */
    constructor (hash: Idem.Key -> nat, base: nat)
      requires forall k :: hash(k) < Idem.IDEM_CAP
      ensures Valid() && fresh(repr) && gateway.Snap() == G.Initial(base)
      ensures Snap() == Opening(seq(MAX_STOPS, _ => Engine.NO_STOP), seq(MAX_ACCOUNTS, _ => Vacant))
      ensures stage.Contents() == [] && stage.lost == 0
    {
      hide Gateway.Gateway.Valid; hide Gateway.Gateway.Snap; hide Engine.Engine.Valid; hide Engine.Engine.Snap;
      hide Book.Book.Valid; hide Book.Book.Wired;
      hide AccountTable.AccountTable.Valid; hide AccountTable.AccountTable.Seats; hide G.Initial;
      hide Wired; hide Valid; hide Snap; hide Opening; hide Ring.Window; hide Ring.Ring.Valid;
      hide Ring.Ring.Contents; hide EventStream.Stage.Valid;
      hide EventStream.Stage.Contents;
      var g, e, t, s, m := NewParts(hash, base);
      gateway, engine, table, stage, idMap := g, e, t, s, m;
      idMapCount, validated, riskRejected, sequenced, matched := 0, 0, 0, 0, 0;
      repr := {this, m, s, s.buf, g, e, t} + g.repr + e.repr + t.repr;
      new;
      assert Apart();
      Opens();
    }

    static method NewParts(hash: Idem.Key -> nat, base: nat)
      returns (g: Gateway.Gateway, e: Engine.Engine, t: AccountTable.AccountTable, s: EventStream.Stage, m: array<Owner>)
      requires forall k :: hash(k) < Idem.IDEM_CAP
      ensures fresh(g.repr) && fresh(e.repr) && fresh(t.repr) && fresh({s, s.buf, m})
      ensures g.repr !! e.repr && g.repr !! t.repr && e.repr !! t.repr
      ensures {s, s.buf, m} !! g.repr && {s, s.buf, m} !! e.repr && {s, s.buf, m} !! t.repr
      ensures g.Valid() && g.Snap() == G.Initial(base) && t.Valid() && t.Seats() == seq(MAX_ACCOUNTS, _ => Vacant)
      ensures e.Valid() && e.Snap() == Core(EMPTY, seq(MAX_STOPS, _ => Engine.NO_STOP), 0, 0, 0, 0, [])
      ensures e.events.Contents() == [] && s.Valid() && s.Contents() == [] && s.lost == 0 && m.Length == MAX_OWNERS
    {
      hide Gateway.Gateway.Valid; hide Gateway.Gateway.Snap; hide Engine.Engine.Valid; hide Engine.Engine.Snap;
      hide Book.Book.Valid; hide Book.Book.Wired; hide AccountTable.AccountTable.Valid;
      hide AccountTable.AccountTable.Seats;
      hide G.Initial; hide Ring.Window; hide Ring.Ring.Valid; hide Ring.Ring.Contents; hide EventStream.Stage.Valid;
      hide EventStream.Stage.Contents;
      m := new Owner[MAX_OWNERS](_ => Owner(0, 0));
      s := new EventStream.Stage();
      t := new AccountTable.AccountTable();
      g := new Gateway.Gateway(hash, base);
      e := new Engine.Engine();
    }

    lemma Opens()
      requires Apart() && idMapCount == 0 && idMap.Length == MAX_OWNERS
      requires gateway.Valid() && engine.Valid() && table.Valid() && stage.Valid() && engine.events.Contents() == []
      requires engine.Snap() == Core(EMPTY, seq(MAX_STOPS, _ => Engine.NO_STOP), 0, 0, 0, 0, [])
      requires table.Seats() == seq(MAX_ACCOUNTS, _ => Vacant)
      ensures Valid() && Snap() == Opening(seq(MAX_STOPS, _ => Engine.NO_STOP), seq(MAX_ACCOUNTS, _ => Vacant))
    {
    }

    /** id_map_lookup_account. */
    method LookupAccount(id: nat) returns (account: nat)
      requires Wired()
      ensures account == OwnerOf(Snap().owners, id)
    {
      hide Wired; hide Gateway.Gateway.Valid; hide Engine.Engine.Valid; hide Engine.Engine.Snap; hide Book.Book.Valid;
      hide Book.Book.Wired; hide AccountTable.AccountTable.Valid; hide AccountTable.AccountTable.Seats;
      ghost var owners := idMap[..idMapCount];
      var i := 0;
      while i < idMapCount
        invariant 0 <= i <= idMapCount
        invariant OwnerOf(owners, id) == OwnerOf(owners[i..], id)
      {
        assert owners[i..][1..] == owners[i + 1..];
        if idMap[i].id == id {
          return idMap[i].account;
        }
        i := i + 1;
      }
      account := 0;
    }

    /** id_map_remember, for an order the engine gave an id. */
    method RememberOwner(id: nat, account: nat)
      requires Wired()
      modifies this`idMapCount, idMap
      ensures Wired() && Snap() == old(Snap()).(owners := Remember(old(Snap()).owners, id, account))
    {
      hide Gateway.Gateway.Valid; hide Engine.Engine.Valid; hide Engine.Engine.Snap; hide Book.Book.Valid;
      hide Book.Book.Wired;
      hide AccountTable.AccountTable.Valid; hide AccountTable.AccountTable.Seats;
      if id == 0 || idMapCount >= MAX_OWNERS {
        return;
      }
      idMap[idMapCount] := Owner(id, account);
      idMapCount := idMapCount + 1;
    }

    /** apply_trade. */
    method ApplyTrade(e: Event)
      requires Wired() && e.Trade?
      modifies table.repr
      ensures Wired() && Snap() == old(Snap()).(seats := Settle(old(Snap()).owners, old(Snap()).seats, e))
    {
      hide Gateway.Gateway.Valid; hide Engine.Engine.Valid; hide Engine.Engine.Snap; hide Book.Book.Valid;
      hide Book.Book.Wired;
      hide AccountTable.AccountTable.Valid; hide AccountTable.AccountTable.Seats; hide Leg; hide OwnerOf;
      var agg := LookupAccount(e.aggressor);
      table.FillLeg(agg, e.aggressorSide, e.tradePrice, e.tradeQty);
      var rest := LookupAccount(e.resting);
      table.FillLeg(rest, e.aggressorSide.Opposite(), e.tradePrice, e.tradeQty);
    }

    /** The turn of drain_engine_events: the accounts move before the event goes out on the bus. */
    method RouteEvent(q: Engine.Queued)
      requires Wired()
      modifies table.repr, stage, stage.buf
      ensures Wired()
      ensures Snap() == old(Snap()).(seats := if q.Note? then Settle(old(Snap()).owners, old(Snap()).seats, q.event)
                                              else old(Snap()).seats)
      ensures var s := old(stage.Contents()) + if q.Note? then [q.event] else [];
        |s| <= EventStream.STAGE_CAP ==> stage.Contents() == s && stage.lost == old(stage.lost)
    {
      hide Gateway.Gateway.Valid; hide Engine.Engine.Valid; hide Engine.Engine.Snap; hide Book.Book.Valid;
      hide Book.Book.Wired; hide AccountTable.AccountTable.Valid; hide AccountTable.AccountTable.Seats;
      hide Settle; hide EventStream.Stage.Contents;
      if q.Note? {
        if q.event.Trade? {
          ApplyTrade(q.event);
        } else {
          SettleOther(Snap().owners, Snap().seats, q.event);
        }
      }
      stage.OnBusEvent(q);
    }

    /** One turn of drain_engine_events; `seen` is what it took off the ring, if that was a note. */
    method DrainOne() returns (more: bool, ghost seen: seq<Event>)
      requires Wired()
      modifies engine`drained, engine.events, table.repr, stage, stage.buf
      ensures Wired() && engine.events.dropped == old(engine.events.dropped) && |seen| <= 1
      ensures more ==> |engine.events.Contents()| + 1 == old(|engine.events.Contents()|)
      ensures !more ==> engine.events.Contents() == [] && seen == []
      ensures engine.events.dropped == 0 ==> old(engine.log[engine.drained..]) == seen + engine.log[engine.drained..]
      ensures Snap() == old(Snap()).(seats := SettleAll(old(Snap()).owners, old(Snap()).seats, seen))
      ensures |old(stage.Contents())| + |seen| <= EventStream.STAGE_CAP ==>
        stage.Contents() == old(stage.Contents()) + seen && stage.lost == old(stage.lost)
    {
      hide Gateway.Gateway.Valid; hide Engine.Engine.Valid; hide Engine.Engine.Snap; hide Book.Book.Valid;
      hide Book.Book.Wired; hide AccountTable.AccountTable.Valid; hide AccountTable.AccountTable.Seats;
      hide Settle; hide SettleAll; hide EventStream.Stage.Contents; hide EventStream.Stage.Valid;
      hide Ring.Ring.Contents;
      hide Ring.Ring.Valid;
      SettleFew(Snap().owners, Snap().seats);
      seen := [];
      var q;
      more, q := engine.PollEvent();
      if more {
        RouteEvent(q);
        seen := if q.Note? then [q.event] else [];
      }
    }

    /** drain_engine_events. */
    method DrainEngineEvents() returns (ghost seen: seq<Event>)
      requires Wired()
      modifies engine`drained, engine.events, table.repr, stage, stage.buf
      ensures Valid() && engine.events.dropped == old(engine.events.dropped)
      ensures Snap() == old(Snap()).(seats := SettleAll(old(Snap()).owners, old(Snap()).seats, seen))
      ensures engine.events.dropped == 0 ==> seen == old(engine.log[engine.drained..])
      ensures |seen| <= old(|engine.events.Contents()|)
      ensures |old(stage.Contents())| + |seen| <= EventStream.STAGE_CAP ==>
        stage.Contents() == old(stage.Contents()) + seen && stage.lost == old(stage.lost)
    {
      hide Apart; hide Snap;
      hide Gateway.Gateway.Valid; hide Engine.Engine.Valid; hide Engine.Engine.Snap; hide Book.Book.Valid;
      hide Book.Book.Wired; hide AccountTable.AccountTable.Valid; hide AccountTable.AccountTable.Seats;
      hide SettleAll; hide EventStream.Stage.Contents; hide EventStream.Stage.Valid; hide Ring.Ring.Contents;
      hide Ring.Ring.Valid;
      ghost var p, staged := Snap(), stage.Contents();
      seen := [];
      SettleFew(p.owners, p.seats);
      assert staged + seen == staged;
      var more := true;
      while more
        invariant Wired() && engine.events.dropped == old(engine.events.dropped)
        invariant Snap() == p.(seats := SettleAll(p.owners, p.seats, seen))
        invariant engine.events.dropped == 0 ==> old(engine.log[engine.drained..]) == seen + engine.log[engine.drained..]
        invariant |seen| + |engine.events.Contents()| <= old(|engine.events.Contents()|)
        invariant |staged| + |seen| <= EventStream.STAGE_CAP ==> stage.Contents() == staged + seen && stage.lost == old(stage.lost)
        invariant !more ==> engine.events.Contents() == []
        decreases more, |engine.events.Contents()|
      {
        ghost var one;
        more, one := DrainOne();
        SettleConcat(p.owners, p.seats, seen, one);
        assert staged + (seen + one) == staged + seen + one;
        seen := seen + one;
      }
    }

    /** match_new: stops wait in the engine, everything else goes to the book. */
    method MatchNew(o: G.Raw, now: nat) returns (id: nat, ghost expiry: nat)
      requires Wired()
      modifies engine.repr
      ensures Wired() && engine.drained == old(engine.drained) && engine.events.dropped >= old(engine.events.dropped)
      ensures var (c, me) := PipelineSpec.MatchNew(old(Snap()).core, o, expiry);
        id == me && Snap() == old(Snap()).(core := c)
      ensures expiry == if o.ttl > 0 then now + o.ttl else 0
    {
      hide Gateway.Gateway.Valid; hide Engine.Engine.Valid; hide Engine.Engine.Snap; hide Book.Book.Valid;
      hide Book.Book.Wired; hide AccountTable.AccountTable.Valid; hide AccountTable.AccountTable.Seats;
      hide EngineSpec.SubmitStop; hide EngineSpec.Submit;
      var kind, side := KindOf(o.kind), SideOf(o.side);
      var until := if o.ttl > 0 then now + o.ttl else 0;
      expiry := until;
      if kind == Stop || kind == StopLimit {
        var r := engine.SubmitStop(kind, side, o.trigger, o.price, o.qty, until);
        id := r.id;
      } else {
        var r := engine.SubmitOrder(kind, side, o.price, o.qty);
        id := r.id;
      }
    }

    /** match_cancel. */
    method MatchCancel(id: nat)
      requires Wired()
      modifies engine.repr
      ensures Wired() && engine.drained == old(engine.drained) && engine.events.dropped >= old(engine.events.dropped)
      ensures Snap() == old(Snap()).(core := PipelineSpec.MatchCancel(old(Snap()).core, id))
    {
      hide Gateway.Gateway.Valid; hide Engine.Engine.Valid; hide Engine.Engine.Snap; hide Book.Book.Valid;
      hide Book.Book.Wired; hide AccountTable.AccountTable.Valid; hide AccountTable.AccountTable.Seats;
      hide CancelOrder; hide CancelStop;
      var ok := engine.CancelOrder(id);
      if !ok {
        ok := engine.CancelStop(id);
      }
    }

    /** me_modify_order, reached through the router. */
    method MatchModify(o: G.Raw)
      requires Wired()
      modifies engine.repr
      ensures Wired() && engine.drained == old(engine.drained) && engine.events.dropped >= old(engine.events.dropped)
      ensures Snap() == old(Snap()).(core := ModifyOrder(old(Snap()).core, o.target, o.newPrice, o.newQty).0)
    {
      hide Gateway.Gateway.Valid; hide Engine.Engine.Valid; hide Engine.Engine.Snap; hide Book.Book.Valid;
      hide Book.Book.Wired; hide AccountTable.AccountTable.Valid; hide AccountTable.AccountTable.Seats;
      hide ModifyOrder;
      var ok := engine.ModifyOrder(o.target, o.newPrice, o.newQty);
    }

    /** Router and matching. */
    method RouteOrder(o: G.Raw, now: nat) returns (ghost expiry: nat)
      requires Wired()
      modifies this`matched, this`idMapCount, idMap, engine.repr
      ensures Wired() && engine.drained == old(engine.drained) && engine.events.dropped >= old(engine.events.dropped)
      ensures Snap() == Routed(old(Snap()), o, expiry)
      ensures expiry == if o.ttl > 0 then now + o.ttl else 0
    {
      hide Gateway.Gateway.Valid; hide Engine.Engine.Valid; hide Engine.Engine.Snap; hide Book.Book.Valid;
      hide Book.Book.Wired; hide AccountTable.AccountTable.Valid; hide AccountTable.AccountTable.Seats;
      hide PipelineSpec.MatchNew; hide PipelineSpec.MatchCancel; hide ModifyOrder; hide Remember;
      expiry := if o.ttl > 0 then now + o.ttl else 0;
      if o.action == G.ACT_NEW {
        var id;
        id, expiry := MatchNew(o, now);
        matched := matched + 1;
        RememberNothing(Snap().owners, o.account);
        if id != 0 {
          RememberOwner(id, o.account);
        }
      } else if o.action == G.ACT_CANCEL {
        MatchCancel(o.target);
      } else if o.action == G.ACT_MODIFY {
        MatchModify(o);
      }
    }

    /** Matching and settlement of one message. */
    method Execute(o: G.Raw, now: nat) returns (ghost expiry: nat, ghost seen: seq<Event>)
      requires Valid()
      modifies this`matched, this`idMapCount, idMap, engine.repr, table.repr, stage, stage.buf
      ensures Valid() && engine.events.dropped >= old(engine.events.dropped)
      ensures var p, p1 := old(Snap()), Routed(old(Snap()), o, expiry);
        && Snap() == p1.(seats := SettleAll(p1.owners, p1.seats, seen))
        && (engine.events.dropped == 0 ==> |p.core.log| <= |p1.core.log| && seen == p1.core.log[|p.core.log|..])
      ensures |seen| < Engine.EVENT_QUEUE_CAP
      ensures expiry == if o.ttl > 0 then now + o.ttl else 0
      ensures |old(stage.Contents())| + |seen| <= EventStream.STAGE_CAP ==>
        stage.Contents() == old(stage.Contents()) + seen && stage.lost == old(stage.lost)
    {
      hide Gateway.Gateway.Valid; hide Engine.Engine.Valid; hide Engine.Engine.Snap; hide Book.Book.Valid;
      hide Book.Book.Wired; hide AccountTable.AccountTable.Valid; hide AccountTable.AccountTable.Seats;
      hide Routed; hide SettleAll; hide EventStream.Stage.Contents; hide EventStream.Stage.Valid;
      hide Ring.Ring.Contents; hide Ring.Ring.Valid;
      expiry := RouteOrder(o, now);
      seen := DrainEngineEvents();
    }

    /** Validation and risk. The verdict of the risk check, for a known account, is arbitrary. */
    method Screen(o: G.Raw) returns (passes: bool, ghost riskOk: bool)
      requires Valid()
      modifies this`validated, this`riskRejected, this`sequenced
      ensures Valid() && Snap() == old(Snap()) && passes == Passes(Snap(), o, riskOk)
    {
      hide Gateway.Gateway.Valid; hide Engine.Engine.Valid; hide Engine.Engine.Snap; hide Book.Book.Valid;
      hide Book.Book.Wired; hide AccountTable.AccountTable.Valid; hide AccountTable.AccountTable.Seats;
      hide EventStream.Stage.Contents; hide EventStream.Stage.Valid; hide Validates; hide Known;
      hide Ring.Ring.Contents; hide Ring.Ring.Valid; hide Gateway.Gateway.Snap;
      passes, riskOk := false, true;
      if !Validates(o) {
        return;
      }
      validated := validated + 1;
      var known := table.Has(o.account);
      if known {
        var verdict: bool := *;
        riskOk := verdict;
        if !verdict {
          riskRejected := riskRejected + 1;
          return;
        }
      }
      sequenced := sequenced + 1;
      passes := true;
    }

    /** One turn of the loop in pipeline_step. */
    method ProcessOne(e: G.OrderIn, now: nat) returns (ghost t: Turn)
      requires Valid()
      modifies repr - gateway.repr
      ensures Valid() && gateway.Snap() == old(gateway.Snap()) && t.order == e.order
      ensures t.expiry == if e.order.ttl > 0 then now + e.order.ttl else 0
      ensures engine.events.dropped >= old(engine.events.dropped)
      ensures Snap() == Handle(old(Snap()), t.order, t.expiry, t.riskOk, t.seen)
      ensures engine.events.dropped == 0 ==> Faithful(old(Snap()), t)
      ensures !Passes(old(Snap()), t.order, t.riskOk) ==> t.seen == []
      ensures |t.seen| < Engine.EVENT_QUEUE_CAP
      ensures |old(stage.Contents())| + |t.seen| <= EventStream.STAGE_CAP ==>
        stage.Contents() == old(stage.Contents()) + t.seen && stage.lost == old(stage.lost)
    {
      hide Gateway.Gateway.Valid; hide Engine.Engine.Valid; hide Engine.Engine.Snap; hide Book.Book.Valid;
      hide Book.Book.Wired; hide AccountTable.AccountTable.Valid; hide AccountTable.AccountTable.Seats;
      hide Routed; hide SettleAll; hide EventStream.Stage.Contents; hide EventStream.Stage.Valid; hide Passes;
      hide Ring.Ring.Contents; hide Ring.Ring.Valid; hide Gateway.Gateway.Snap; hide Handle; hide Faithful;
      ghost var p := Snap();
      var passes;
      ghost var riskOk;
      passes, riskOk := Screen(e.order);
      t := Turn(e.order, if e.order.ttl > 0 then now + e.order.ttl else 0, riskOk, []);
      if !passes {
        assert stage.Contents() + [] == stage.Contents();
        StoppedTurn(p, t);
        return;
      }
      ghost var expiry, seen := Execute(e.order, now);
      t := t.(seen := seen);
      FullTurn(p, t);
    }

    /** The messages the gateway has parked. */
    ghost function Parked(): seq<G.OrderIn>
      requires Wired()
      reads this, repr
    {
      gateway.Snap().queue
    }

    /**
     pipeline_step: every parked message in turn, in the order the gateway admitted them. Settlement is zero-sum
     as long as the engine's ring drops nothing and every message is plain.
     */
    method Step(now: nat) returns (processed: nat, ghost turns: seq<Turn>)
      requires Valid()
      modifies repr
      ensures Valid() && gateway.Snap() == old(gateway.Snap()).(queue := [])
      ensures processed == |turns| == old(|Parked()|)
      ensures forall i | 0 <= i < |turns| :: turns[i].order == old(Parked())[i].order && |turns[i].seen| < Engine.EVENT_QUEUE_CAP
      ensures forall i | 0 <= i < |turns| ::
        turns[i].expiry == if turns[i].order.ttl > 0 then now + turns[i].order.ttl else 0
      ensures Snap() == HandleAll(old(Snap()), turns) && engine.events.dropped >= old(engine.events.dropped)
      ensures engine.events.dropped == 0 ==> AllFaithful(old(Snap()), turns)
      ensures |old(stage.Contents())| + |SeenIn(turns)| <= EventStream.STAGE_CAP ==>
        stage.Contents() == old(stage.Contents()) + SeenIn(turns) && stage.lost == old(stage.lost)
      ensures Settled(old(Snap())) && engine.events.dropped == 0 && EachPlain(old(Snap()), turns) ==>
        Settled(Snap()) && SameTotals(old(Snap()), Snap())
    {
      hide Settled; hide EachPlain; hide SameTotals; hide AllFaithful; hide Apart; hide Snap; hide Stepped;
      hide Gateway.Gateway.Valid; hide Engine.Engine.Valid; hide Engine.Engine.Snap; hide Book.Book.Valid;
      hide Book.Book.Wired; hide AccountTable.AccountTable.Valid; hide AccountTable.AccountTable.Seats;
      hide EventStream.Stage.Contents; hide EventStream.Stage.Valid; hide Ring.Ring.Contents; hide Ring.Ring.Valid;
      hide Gateway.Gateway.Snap; hide Handle; hide Faithful; hide HandleAll; hide SeenIn;
      hide TakenFrom;
      ghost var p, staged, lost, queue := Snap(), stage.Contents(), stage.lost, Parked();
      turns, processed := [], 0;
      SteppedFirst(p, engine.events.dropped, staged, lost);
      TakenNone(queue, now);
      var more, e := NextParked();
      assert queue == (if more then [e] else []) + Parked();
      while more
        invariant Valid() && processed == |turns|
        invariant TakenFrom(queue, now, turns, (if more then [e] else []) + Parked())
        invariant !more ==> Parked() == []
        invariant gateway.Snap() == old(gateway.Snap()).(queue := Parked())
        invariant engine.events.dropped >= old(engine.events.dropped)
        invariant Stepped(p, turns, Snap(), engine.events.dropped, staged, lost, stage.Contents(), stage.lost)
        decreases |Parked()|, more
      {
        ghost var rest := Parked();
        assert ([e] + rest)[1..] == rest;
        ghost var p1, dropped1, staged1, lost1 := Snap(), engine.events.dropped, stage.Contents(), stage.lost;
        ghost var t := ProcessOne(e, now);
        SteppedMore(p, turns, p1, dropped1, staged, lost, staged1, lost1, t, engine.events.dropped, stage.Contents(), stage.lost);
        TakenOne(queue, now, turns, [e] + rest, t);
        turns, processed := turns + [t], processed + 1;
        more, e := NextParked();
        assert rest == (if more then [e] else []) + Parked();
      }
      TakenAll(queue, now, turns);
      SteppedIs(p, turns, Snap(), engine.events.dropped, staged, lost, stage.Contents(), stage.lost);
      if Settled(p) && engine.events.dropped == 0 && EachPlain(p, turns) {
        TurnsZeroSum(p, turns);
      }
    }

    /** pipeline_submit: the gateway decides, the engine and the accounts are not involved. */
    method Submit(m: G.Inbound, now: nat) returns (ack: G.Ack)
      requires Valid() && gateway.Snap().bucket.last <= now
      modifies gateway.repr
      ensures Valid() && Snap() == old(Snap()) && engine.events.dropped == old(engine.events.dropped)
      ensures stage.Contents() == old(stage.Contents()) && stage.lost == old(stage.lost)
      ensures (gateway.Snap(), ack) == G.Submit(old(gateway.Snap()), m, now)
    {
      hide Gateway.Gateway.Valid; hide Engine.Engine.Valid; hide Engine.Engine.Snap; hide Book.Book.Valid;
      hide Book.Book.Wired; hide AccountTable.AccountTable.Valid; hide AccountTable.AccountTable.Seats;
      hide EventStream.Stage.Contents; hide EventStream.Stage.Valid; hide Ring.Ring.Contents; hide Ring.Ring.Valid;
      hide Gateway.Gateway.Snap; hide G.Submit;
      ack := gateway.Submit(m, now);
    }

    /** The end of process_staged_events. */
    method ClearStage()
      requires Valid()
      modifies stage
      ensures Valid() && Snap() == old(Snap()) && gateway.Snap() == old(gateway.Snap())
      ensures stage.Contents() == [] && stage.lost == old(stage.lost)
    {
      hide Gateway.Gateway.Valid; hide Engine.Engine.Valid; hide Engine.Engine.Snap; hide Book.Book.Valid;
      hide Book.Book.Wired; hide AccountTable.AccountTable.Valid; hide AccountTable.AccountTable.Seats;
      hide EventStream.Stage.Contents; hide EventStream.Stage.Valid; hide Ring.Ring.Contents; hide Ring.Ring.Valid;
      hide Gateway.Gateway.Snap;
      stage.Clear();
    }

    /** gw_ring_pop. */
    method NextParked() returns (ok: bool, e: G.OrderIn)
      requires Valid()
      modifies gateway.repr
      ensures Valid() && Snap() == old(Snap()) && engine.events.dropped == old(engine.events.dropped)
      ensures stage.Contents() == old(stage.Contents()) && stage.lost == old(stage.lost)
      ensures old(Parked()) == (if ok then [e] else []) + Parked() && (!ok ==> Parked() == [])
      ensures gateway.Snap() == old(gateway.Snap()).(queue := Parked())
    {
      hide Gateway.Gateway.Valid; hide Engine.Engine.Valid; hide Engine.Engine.Snap; hide Book.Book.Valid;
      hide Book.Book.Wired; hide AccountTable.AccountTable.Valid; hide AccountTable.AccountTable.Seats;
      hide EventStream.Stage.Contents; hide EventStream.Stage.Valid; hide Ring.Ring.Contents; hide Ring.Ring.Valid;
      hide Gateway.Gateway.Snap;
      ok, e := gateway.PopOrder();
    }
  }

  lemma RememberNothing(owners: seq<Owner>, account: nat)
    ensures Remember(owners, 0, account) == owners
  {
  }
}
