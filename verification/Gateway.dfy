/** The order intake gateway of pipeline/gateway.c, updated in place and proved against GatewaySpec. */
module Gateway {
  import opened IdemCache
  import opened RateLimit
  import opened GatewaySpec
  import Ring

  class Gateway {
    const ring: Ring.Ring<OrderIn>
    const idem: IdemTable
    var nextServerOrderId: nat
    var killSwitch: bool
    var lastRefill: nat
    var tokens: nat
    var maxTokens: nat
    var refillPerSec: nat
    var accepted: nat
    var rejected: nat
    var duplicates: nat
    var throttled: nat
    // Everything ever put on the ring, and the first id given to each key.
    ghost var pushed: seq<OrderIn>
    ghost var first: map<Key, nat>
    ghost const repr: set<object>

    ghost predicate Valid()
      reads this, repr
      ensures Valid() ==> {this, ring, ring.buf, idem, idem.slots} <= repr && ring.Valid()
    {
      && repr == {this, ring, ring.buf, idem, idem.slots}
      && ring.Valid() && ring.buf.Length == RING_CAP && idem.Valid()
    }

    ghost function Snap(): (s: State)
      requires Valid()
      reads this, repr
      ensures s.bucket.last == lastRefill && s.kill == killSwitch
    {
      State(nextServerOrderId, ring.Contents(), idem.Map(), killSwitch,
            Bucket(lastRefill, tokens, maxTokens, refillPerSec), Counts(accepted, rejected, duplicates, throttled),
            pushed, first)
    }

    /** gateway_init, with the id counter seeded by bridge_add_symbol. */
    constructor (hash: Key -> nat, base: nat)
      requires forall k :: hash(k) < IDEM_CAP
      ensures Valid() && fresh(repr) && Snap() == Initial(base)
    {
      hide IdemTable.Valid; hide IdemTable.Map; hide Ring.Window;
      var r := new Ring.Ring<OrderIn>(RING_CAP, OrderIn(0, Raw(0, 0, 0, 0, 0, 0, 0, 0, 0, 0, 0, 0, 0)));
      var c := new IdemTable(hash);
      ring, idem := r, c;
      nextServerOrderId, killSwitch, lastRefill := base, false, 0;
      tokens, maxTokens, refillPerSec := 2000, 2000, 10000;
      accepted, rejected, duplicates, throttled := 0, 0, 0, 0;
      pushed, first := [], map[];
      repr := {this, r, r.buf, c, c.slots};
    }

    /** gateway_set_kill_switch. */
    method SetKillSwitch(on: bool)
      requires Valid()
      modifies this`killSwitch
      ensures Valid() && Snap() == Step(old(Snap()), KillOp(on))
    {
      killSwitch := on;
    }

    /** rl_refill. */
    method RefillTokens(now: nat)
      requires lastRefill <= now
      modifies this`lastRefill, this`tokens
      ensures Bucket(lastRefill, tokens, maxTokens, refillPerSec)
        == Refill(old(Bucket(lastRefill, tokens, maxTokens, refillPerSec)), now)
    {
      if lastRefill == 0 {
        lastRefill := now;
        return;
      }
      var dt := now - lastRefill;
      var add := dt * refillPerSec / NS_PER_SEC;
      if add == 0 {
        return;
      }
      tokens := if tokens + add > maxTokens then maxTokens else tokens + add;
      lastRefill := now;
    }

    /** rl_take. */
    method TakeToken() returns (ok: bool)
      modifies this`tokens
      ensures var (b, taken) := Take(old(Bucket(lastRefill, tokens, maxTokens, refillPerSec)));
        ok == taken && Bucket(lastRefill, tokens, maxTokens, refillPerSec) == b
    {
      if tokens == 0 {
        return false;
      }
      tokens := tokens - 1;
      ok := true;
    }

    /** Step 2 of stage C. */
    method LimitRate(now: nat) returns (ok: bool)
      requires Valid() && lastRefill <= now
      modifies this`lastRefill, this`tokens
      ensures Valid()
      ensures var (b, taken) := Offer(old(Snap()).bucket, now); ok == taken && Snap() == old(Snap()).(bucket := b)
    {
      hide IdemTable.Valid; hide IdemTable.Map; hide Ring.Window; hide Ring.Ring.Contents; hide Ring.Ring.Valid;
      hide Refill; hide Take;
      RefillTokens(now);
      ok := TakeToken();
    }

    /** Steps 3 to 5 of stage C: a known key is answered with its id, any other message gets the next id. */
    method Identify(r: Raw) returns (st: AckStatus, id: nat)
      requires Valid()
      modifies this`nextServerOrderId, this`first, idem, idem.slots
      ensures Valid()
      ensures var s, k := old(Snap()), KeyOf(r);
        if k in s.idem then st == Duplicate && id == s.idem[k] && Snap() == s
        else st == Accepted && id == s.nextId + 1 && Snap() == Numbered(s, k)
    {
      hide IdemTable.Valid; hide IdemTable.Map; hide Ring.Window; hide Ring.Ring.Contents; hide Ring.Ring.Valid;
      var found, known := idem.Find(KeyOf(r));
      if found {
        return Duplicate, known;
      }
      nextServerOrderId := nextServerOrderId + 1;
      idem.Insert(KeyOf(r), nextServerOrderId);
      if r.client != 0 && KeyOf(r) !in first {
        first := first[KeyOf(r) := nextServerOrderId];
      }
      st, id := Accepted, nextServerOrderId;
    }

    /** stage_c_admit. */
    method StageAdmit(r: Raw, now: nat) returns (st: AckStatus, id: nat)
      requires Valid() && lastRefill <= now
      modifies this, idem, idem.slots
      ensures Valid() && (Snap(), st, id) == Admit(old(Snap()), r, now)
    {
      hide Offer; hide Numbered; hide Valid; hide Snap;
      if killSwitch && r.action == ACT_NEW {
        return Killed, 0;
      }
      var ok := LimitRate(now);
      if !ok {
        return Throttled, 0;
      }
      st, id := Identify(r);
    }

    /** gateway_submit. */
    method Submit(m: Inbound, now: nat) returns (ack: Ack)
      requires Valid() && lastRefill <= now
      modifies repr
      ensures Valid() && (Snap(), ack) == GatewaySpec.Submit(old(Snap()), m, now)
    {
      hide Admit; hide IdemTable.Valid; hide IdemTable.Map; hide WellShaped;
      hide Ring.Window;
      if !WellShaped(m) {
        rejected := rejected + 1;
        return Ack(Rejected, 0);
      }
      WellShapedMessage(m);
      AdmitFields(Snap(), m.raw, now);
      var st, id := StageAdmit(m.raw, now);
      if st != Accepted {
        if st == Duplicate {
          duplicates := duplicates + 1;
        } else if st == Throttled {
          throttled := throttled + 1;
        } else {
          rejected := rejected + 1;
        }
        return Ack(st, id);
      }
      var pushedOk := ring.Push(OrderIn(id, m.raw));
      if !pushedOk {
        throttled := throttled + 1;
        return Ack(Throttled, 0);
      }
      pushed := pushed + [OrderIn(id, m.raw)];
      accepted := accepted + 1;
      ack := Ack(Accepted, id);
    }

    /** gw_ring_pop, by the stage behind the gateway. */
    method PopOrder() returns (ok: bool, e: OrderIn)
      requires Valid()
      modifies ring
      ensures Valid() && Snap() == Pop(old(Snap()))
      ensures ok == (old(Snap().queue) != []) && (ok ==> e == old(Snap().queue)[0])
    {
      hide IdemTable.Valid; hide IdemTable.Map; hide Ring.Window;
      ok, e := ring.Pop();
    }
  }

  lemma WellShapedMessage(m: Inbound)
    requires WellShaped(m)
    ensures m.Message?
  {
  }

  lemma AdmitFields(s: State, r: Raw, now: nat)
    requires s.bucket.last <= now
    ensures var s1 := Admit(s, r, now).0; s1.queue == s.queue && s1.pushed == s.pushed && s1.counts == s.counts
  {
    hide Offer;
  }
}
