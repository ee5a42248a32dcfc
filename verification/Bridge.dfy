/** One symbol of the bridge (bridge/bridge.c): the pipeline with its gateway, and the registry beside it. */
module Bridge {
  import opened EngineSpec
  import opened PipelineSpec
  import opened PipelineLaws
  import opened Registry
  import opened BridgeSpec
  import P = Pipeline
  import AccountTable
  import Book
  import Engine
  import EventStream
  import G = GatewaySpec
  import Gateway
  import Idem = IdemCache
  import OrderRegistry
  import RateLimit
  import Ring

  const API_SOURCE: nat := 1

  /** A cancel or modify that names no mapped order. */
  predicate UnknownTarget(r: Reg, m: G.Raw) {
    m.action in {G.ACT_CANCEL, G.ACT_MODIFY} &&
    var i := SlotFor(r, m.target);
    i == |r.orders| || r.orders[i].meId == 0
  }

  /** The gateway's message: a target is translated into the engine's namespace. */
  function Translated(r: Reg, m: G.Raw): G.Raw {
    var i := SlotFor(r, m.target);
    m.(source := API_SOURCE,
       target := if m.action in {G.ACT_CANCEL, G.ACT_MODIFY} && i < |r.orders| then r.orders[i].meId else 0)
  }

  /** Only the source and the target are rewritten, the target into the engine id of the slot that was named. */
  lemma TranslatedKeeps(r: Reg, m: G.Raw)
    ensures Translated(r, m) == m.(source := API_SOURCE, target := Translated(r, m).target)
    ensures m.action in {G.ACT_CANCEL, G.ACT_MODIFY} && !UnknownTarget(r, m) ==>
      exists i | 0 <= i < |r.orders| :: r.orders[i].orderId == m.target && r.orders[i].meId == Translated(r, m).target
  {
  }

  lemma OneTurn(p: Pipe, t: P.Turn)
    ensures P.HandleAll(p, [t]) == Handle(p, t.order, t.expiry, t.riskOk, t.seen)
    ensures P.SeenIn([t]) == t.seen && (P.AllFaithful(p, [t]) ==> P.Faithful(p, t))
  {
    P.OneMore(p, [], t);
    assert [] + [t] == [t] && [] + t.seen == t.seen;
    assert [t][..0] == [];
    assert P.AllFaithful(p, [t]) ==> P.Faithful(P.HandleAll(p, [t][..0]), [t][0]);
  }

  lemma IssuesNext(s: G.State, o: G.Raw, now: nat)
    requires s.bucket.last <= now
    ensures var (s', ack) := G.Submit(s, G.Message(o), now);
      s.nextId <= s'.nextId && (ack.status == G.Accepted ==> ack.serverId == s'.nextId == s.nextId + 1)
  {
    hide RateLimit.Offer;
  }

  /** What an accepted message leaves on an empty ring. */
  lemma AcceptedParks(s: G.State, o: G.Raw, now: nat)
    requires s.bucket.last <= now && s.queue == []
    ensures var (s', ack) := G.Submit(s, G.Message(o), now);
      if ack.status == G.Accepted then s'.queue == [G.OrderIn(ack.serverId, o)] else s'.queue == []
  {
    hide RateLimit.Offer;
  }

  /** What bridge_submit does to the agreement of registry and book. */
  lemma SubmitAgrees(b: BridgeSpec.Bridge, s: G.State, o: G.Raw, now: nat, t: P.Turn, b': BridgeSpec.Bridge)
    requires s.bucket.last <= now && BridgeSpec.Inv(b, s.nextId)
    requires var ack := G.Submit(s, G.Message(o), now).1;
      if ack.status == G.Accepted then
        b' == Accept(b, o, ack.serverId, t.expiry, t.riskOk, t.seen) && t.seen == Staged(b.pipe, o, t.expiry, t.riskOk)
      else b' == b
    ensures var (s', ack) := G.Submit(s, G.Message(o), now);
      BridgeSpec.Inv(b', s'.nextId) <==> ack.status != G.Accepted || !Loses(b, o, t.riskOk)
  {
    hide G.Submit; hide Accept; hide Staged; hide Loses; hide BridgeSpec.Inv;
    IssuesNext(s, o, now);
    var (s', ack) := G.Submit(s, G.Message(o), now);
    if ack.status == G.Accepted {
      AcceptKeepsIff(b, o, ack.serverId, t.expiry, t.riskOk, s.nextId);
    } else {
      InvLater(b, s.nextId, s'.nextId);
    }
  }

  class Bridge {
    const pipeline: P.Pipeline
    const registry: OrderRegistry.OrderRegistry
    ghost const repr: set<object>

    /** The parts are well formed and do not overlap. */
    ghost predicate Joined()
      reads this, repr
      ensures Joined() ==> pipeline.Valid() && registry.Valid()
    {
      && {pipeline, registry} <= repr && pipeline.repr <= repr && registry.repr <= repr && pipeline.repr !! registry.repr
      && pipeline.Valid() && registry.Valid()
    }

    /** Between calls nothing is parked and nothing is staged. */
    ghost predicate Valid()
      reads this, repr
    {
      Joined() && pipeline.Parked() == [] && pipeline.stage.Contents() == []
    }

    ghost function Slots(): Reg
      requires Joined()
      reads this, repr
    {
      registry.Value()
    }

    ghost function Snap(): (b: BridgeSpec.Bridge)
      requires Joined()
      reads this, repr
      ensures b.reg == Slots()
    {
      BridgeSpec.Bridge(pipeline.Snap(), Slots())
    }

    ghost function Intake(): G.State
      requires Joined()
      reads this, repr
    {
      pipeline.gateway.Snap()
    }

    /** bridge_add_symbol. */
    constructor (hash: Idem.Key -> nat, base: nat)
      requires forall k :: hash(k) < Idem.IDEM_CAP
      ensures Valid() && fresh(repr) && Intake() == G.Initial(base)
      ensures Snap() == BridgeSpec.Opening(base, seq(MAX_STOPS, _ => Engine.NO_STOP), seq(MAX_ACCOUNTS, _ => Vacant))
    {
      hide P.Pipeline.Valid; hide P.Pipeline.Wired; hide P.Pipeline.Snap;
      hide OrderRegistry.OrderRegistry.Valid; hide OrderRegistry.OrderRegistry.Value; hide Gateway.Gateway.Valid;
      hide Engine.Engine.Valid; hide Book.Book.Valid; hide Book.Book.Wired; hide AccountTable.AccountTable.Valid;
      hide Gateway.Gateway.Snap; hide EventStream.Stage.Contents; hide Ring.Window; hide Ring.Ring.Contents;
      hide Ring.Ring.Valid; hide PipelineLaws.Opening;
      var p := new P.Pipeline(hash, base);
      var r := new OrderRegistry.OrderRegistry(base);
      pipeline, registry := p, r;
      repr := {this, p, r} + p.repr + r.repr;
    }

    /** The gateway's form of a message, when its target is known. */
    method Translate(m: G.Raw) returns (known: bool, o: G.Raw)
      requires Joined()
      ensures var r := Slots(); known == !UnknownTarget(r, m) && (known ==> o == Translated(r, m))
    {
      hide P.Pipeline.Valid; hide P.Pipeline.Wired; hide P.Pipeline.Snap; hide Gateway.Gateway.Valid;
      hide Engine.Engine.Valid; hide Book.Book.Valid; hide Book.Book.Wired; hide AccountTable.AccountTable.Valid;
      hide SlotFor;
      o := m.(source := API_SOURCE, target := 0);
      known := true;
      if m.action == G.ACT_CANCEL || m.action == G.ACT_MODIFY {
        var i := registry.SlotAt(m.target);
        known := i < registry.orders.Length && registry.orders[i].meId != 0;
        if known {
          o := o.(target := registry.orders[i].meId);
        }
      }
    }

    /** pipeline_step over the one message parked on the ring. */
    method RunPipeline(o: G.Raw, gw: nat, now: nat) returns (me: nat, ghost t: P.Turn)
      requires Joined() && pipeline.Parked() == [G.OrderIn(gw, o)] && pipeline.stage.Contents() == []
      modifies pipeline.repr
      ensures Joined() && pipeline.Parked() == [] && t.order == o
      ensures t.expiry == if o.ttl > 0 then now + o.ttl else 0
      ensures Intake() == old(Intake()).(queue := []) && Slots() == old(Slots())
      ensures Snap().pipe == Handle(old(Snap()).pipe, o, t.expiry, t.riskOk, t.seen)
      ensures me == NewId(old(Snap()).pipe.owners, Snap().pipe.owners)
      ensures pipeline.engine.events.dropped == 0 ==> t.seen == Staged(old(Snap()).pipe, o, t.expiry, t.riskOk)
      ensures pipeline.stage.Contents() == t.seen && pipeline.stage.lost == old(pipeline.stage.lost)
    {
      hide P.Pipeline.Valid; hide P.Pipeline.Wired; hide P.Pipeline.Snap; hide OrderRegistry.OrderRegistry.Valid;
      hide OrderRegistry.OrderRegistry.Value; hide Ring.Window; hide Ring.Ring.Contents; hide Ring.Ring.Valid;
      hide Handle; hide Staged; hide P.HandleAll; hide P.SeenIn; hide P.AllFaithful; hide P.Faithful;
      hide Gateway.Gateway.Valid; hide Gateway.Gateway.Snap; hide Engine.Engine.Valid;
      hide EventStream.Stage.Contents;
      hide Book.Book.Valid; hide Book.Book.Wired; hide AccountTable.AccountTable.Valid;
      ghost var b := Snap();
      var before := pipeline.idMapCount;
      ghost var turns;
      var processed;
      processed, turns := pipeline.Step(now);
      t := turns[0];
      assert turns == [t];
      OneTurn(b.pipe, t);
      assert [] + t.seen == t.seen;
      FaithfulIsStaged(b.pipe, t);
      me := if pipeline.idMapCount > before then pipeline.idMap[pipeline.idMapCount - 1].id else 0;
    }

    /** Pre-registration, before the pipeline runs. */
    method RegisterOrder(o: G.Raw, gw: nat)
      requires Joined()
      modifies registry.repr
      ensures Joined() && Intake() == old(Intake()) && pipeline.Parked() == old(pipeline.Parked())
      ensures pipeline.stage.Contents() == old(pipeline.stage.Contents()) && pipeline.stage.lost == old(pipeline.stage.lost)
      ensures pipeline.engine.events.dropped == old(pipeline.engine.events.dropped)
      ensures Snap() == old(Snap()).(reg := Register(old(Slots()), o, gw))
    {
      hide P.Pipeline.Valid; hide P.Pipeline.Wired; hide P.Pipeline.Snap; hide OrderRegistry.OrderRegistry.Valid;
      hide OrderRegistry.OrderRegistry.Value; hide Ring.Window; hide Ring.Ring.Contents; hide Ring.Ring.Valid;
      hide Gateway.Gateway.Valid; hide Gateway.Gateway.Snap; hide Engine.Engine.Valid; hide Book.Book.Valid;
      hide Book.Book.Wired; hide AccountTable.AccountTable.Valid; hide EventStream.Stage.Contents;
      hide EventStream.Stage.Valid;
      hide Register;
      registry.Register(o, gw);
    }

    /** The engine's id, the staged events and the synthetic rejection, after it. */
    method CatchUp(o: G.Raw, gw: nat, me: nat)
      requires Joined()
      modifies registry.repr
      ensures Joined() && Intake() == old(Intake()) && pipeline.Parked() == old(pipeline.Parked())
      ensures pipeline.stage.Contents() == old(pipeline.stage.Contents()) && pipeline.stage.lost == old(pipeline.stage.lost)
      ensures pipeline.engine.events.dropped == old(pipeline.engine.events.dropped)
      ensures Snap() == old(Snap()).(reg := RejectUntouched(OnAll(Bind(old(Slots()), o, gw, me), pipeline.stage.Contents()), o, gw))
    {
      hide P.Pipeline.Valid; hide P.Pipeline.Wired; hide P.Pipeline.Snap; hide OrderRegistry.OrderRegistry.Valid;
      hide OrderRegistry.OrderRegistry.Value; hide Ring.Window; hide Ring.Ring.Contents; hide Ring.Ring.Valid;
      hide Gateway.Gateway.Valid; hide Gateway.Gateway.Snap; hide Engine.Engine.Valid; hide Book.Book.Valid;
      hide Book.Book.Wired; hide AccountTable.AccountTable.Valid; hide EventStream.Stage.Contents;
      hide EventStream.Stage.Valid;
      hide Bind; hide OnAll; hide RejectUntouched;
      registry.Bind(o, gw, me);
      registry.ProcessStaged(pipeline.stage);
      registry.RejectUntouched(o, gw);
    }

    /** The part of bridge_submit behind the gateway's acceptance. */
    method AcceptOrder(o: G.Raw, gw: nat, now: nat) returns (ghost t: P.Turn)
      requires Joined() && pipeline.Parked() == [G.OrderIn(gw, o)] && pipeline.stage.Contents() == []
      modifies repr
      ensures Valid() && Intake() == old(Intake()).(queue := []) && t.order == o
      ensures t.expiry == if o.ttl > 0 then now + o.ttl else 0
      ensures Snap() == Accept(old(Snap()), o, gw, t.expiry, t.riskOk, t.seen)
      ensures pipeline.engine.events.dropped == 0 ==> t.seen == Staged(old(Snap()).pipe, o, t.expiry, t.riskOk)
      ensures pipeline.stage.lost == old(pipeline.stage.lost)
    {
      hide P.Pipeline.Valid; hide P.Pipeline.Wired; hide P.Pipeline.Snap; hide OrderRegistry.OrderRegistry.Valid;
      hide OrderRegistry.OrderRegistry.Value; hide Ring.Window; hide Ring.Ring.Contents; hide Ring.Ring.Valid;
      hide Gateway.Gateway.Valid; hide Gateway.Gateway.Snap; hide Engine.Engine.Valid; hide Book.Book.Valid;
      hide Book.Book.Wired; hide AccountTable.AccountTable.Valid; hide EventStream.Stage.Contents;
      hide EventStream.Stage.Valid;
      hide Handle; hide Staged; hide Register; hide Bind; hide RejectUntouched; hide OnAll; hide NewId;
      RegisterOrder(o, gw);
      var me;
      me, t := RunPipeline(o, gw, now);
      CatchUp(o, gw, me);
      pipeline.ClearStage();
    }

    /** pipeline_submit, and what it parks. */
    method Admit(o: G.Raw, now: nat) returns (ack: G.Ack)
      requires Valid() && Intake().bucket.last <= now
      modifies pipeline.repr
      ensures Joined() && pipeline.stage.Contents() == [] && Snap() == old(Snap())
      ensures (Intake(), ack) == G.Submit(old(Intake()), G.Message(o), now)
      ensures pipeline.engine.events.dropped == old(pipeline.engine.events.dropped)
      ensures pipeline.stage.lost == old(pipeline.stage.lost)
      ensures pipeline.Parked() == if ack.status == G.Accepted then [G.OrderIn(ack.serverId, o)] else []
    {
      hide P.Pipeline.Valid; hide P.Pipeline.Wired; hide P.Pipeline.Snap; hide OrderRegistry.OrderRegistry.Valid;
      hide OrderRegistry.OrderRegistry.Value; hide Ring.Window; hide Ring.Ring.Contents; hide Ring.Ring.Valid;
      hide Gateway.Gateway.Valid; hide Gateway.Gateway.Snap; hide Engine.Engine.Valid; hide Book.Book.Valid;
      hide Book.Book.Wired; hide AccountTable.AccountTable.Valid; hide EventStream.Stage.Contents;
      hide EventStream.Stage.Valid;
      hide G.Submit;
      AcceptedParks(Intake(), o, now);
      ack := pipeline.Submit(G.Message(o), now);
    }

    /** The registry agrees with the book, and both know no id the gateway has yet to issue. */
    ghost predicate Agreed()
      requires Joined()
      reads this, repr
    {
      BridgeSpec.Inv(Snap(), Intake().nextId)
    }

    /**
     bridge_submit. As long as the engine's ring drops nothing, it keeps the agreement of registry and book,
     whatever stops it fires, except exactly when it amends a followed order and loses it at the level limit.
     */
    method Submit(m: G.Raw, now: nat) returns (ack: G.Ack, ghost t: P.Turn)
      requires Valid() && Intake().bucket.last <= now
      modifies repr
      ensures Valid() && pipeline.stage.lost == old(pipeline.stage.lost)
      ensures UnknownTarget(old(Slots()), m) ==>
        ack == G.Ack(G.Rejected, 0) && Snap() == old(Snap()) && Intake() == old(Intake())
      ensures !UnknownTarget(old(Slots()), m) ==>
        (var o := Translated(old(Slots()), m);
         var (g, a) := G.Submit(old(Intake()), G.Message(o), now);
         && ack == a && Intake() == g.(queue := [])
         && (a.status != G.Accepted ==> Snap() == old(Snap()))
         && (a.status == G.Accepted ==>
              && t.expiry == (if m.ttl > 0 then now + m.ttl else 0)
              && Snap() == Accept(old(Snap()), o, a.serverId, t.expiry, t.riskOk, t.seen)
              && (pipeline.engine.events.dropped == 0 ==> t.seen == Staged(old(Snap()).pipe, o, t.expiry, t.riskOk))))
      ensures old(Agreed()) && pipeline.engine.events.dropped == 0 ==>
        (Agreed() <==> UnknownTarget(old(Slots()), m) || ack.status != G.Accepted
                       || !Loses(old(Snap()), Translated(old(Slots()), m), t.riskOk))
    {
      hide P.Pipeline.Valid; hide P.Pipeline.Wired; hide P.Pipeline.Snap; hide OrderRegistry.OrderRegistry.Valid;
      hide OrderRegistry.OrderRegistry.Value; hide Ring.Window; hide Ring.Ring.Contents; hide Ring.Ring.Valid;
      hide Gateway.Gateway.Valid; hide Gateway.Gateway.Snap; hide Engine.Engine.Valid; hide Book.Book.Valid;
      hide Book.Book.Wired; hide AccountTable.AccountTable.Valid; hide EventStream.Stage.Contents;
      hide EventStream.Stage.Valid;
      hide G.Submit; hide Accept; hide Staged; hide Translated; hide UnknownTarget; hide Loses;
      hide BridgeSpec.Inv;
      ghost var b, s := Snap(), Intake();
      t := P.Turn(m, 0, false, []);
      var known, o := Translate(m);
      if !known {
        return G.Ack(G.Rejected, 0), t;
      }
      ack := Admit(o, now);
      if ack.status == G.Accepted {
        TranslatedKeeps(b.reg, m);
        t := AcceptOrder(o, ack.serverId, now);
      }
      if BridgeSpec.Inv(b, s.nextId) && pipeline.engine.events.dropped == 0 {
        SubmitAgrees(b, s, o, now, t, Snap());
      }
    }

    /** bridge_get_order: the view of a registered order. */
    method GetOrder(gw: nat) returns (found: bool, s: Slot)
      requires Valid()
      ensures var r := Slots();
        var i := SlotFor(r, gw);
        found == (i < |r.orders|) && (found ==> s == r.orders[i] && s.orderId == gw)
    {
      hide P.Pipeline.Valid; hide P.Pipeline.Wired; hide P.Pipeline.Snap; hide Ring.Window; hide Ring.Ring.Contents;
      hide Ring.Ring.Valid;
      hide Gateway.Gateway.Valid; hide Gateway.Gateway.Snap; hide Engine.Engine.Valid; hide Book.Book.Valid;
      hide Book.Book.Wired; hide AccountTable.AccountTable.Valid; hide EventStream.Stage.Contents;
      hide EventStream.Stage.Valid;
      hide EventStream.Newest;
      var i := registry.SlotAt(gw);
      found := i < registry.orders.Length;
      s := if found then registry.orders[i] else NO_SLOT;
    }
  }

  lemma FaithfulIsStaged(p: Pipe, t: P.Turn)
    ensures P.Faithful(p, t) ==> t.seen == Staged(p, t.order, t.expiry, t.riskOk)
  {
    hide Passes; hide Seen;
  }
}
