/** Order intake as a function from state to state (pipeline/gateway.c), and what it promises over whole runs. */
module GatewaySpec {
  import opened IdemCache
  import opened RateLimit

  const RING_CAP: nat := 4096

  /** gw_raw_msg_t, with its enumerations as the numbers that arrive. */
  datatype Raw = Raw(source: nat, action: nat, client: nat, account: nat, kind: nat, side: nat, price: int,
                     trigger: int, qty: nat, ttl: nat, target: nat, newPrice: int, newQty: nat)

  const ACT_NEW: nat := 1
  const ACT_CANCEL: nat := 2
  const ACT_MODIFY: nat := 3
  const STOP_LIMIT: nat := 5

  datatype Inbound = Missing | Message(raw: Raw)

  /** order_event_t: the message under the id it was given. */
  datatype OrderIn = OrderIn(serverId: nat, order: Raw)

  datatype AckStatus = Accepted | Rejected | Duplicate | Throttled | Killed

  datatype Ack = Ack(status: AckStatus, serverId: nat)

  datatype Counts = Counts(accepted: nat, rejected: nat, duplicates: nat, throttled: nat)

  /**
   The gateway. The last two fields are history: everything ever put on the ring, and the first id ever given
   to each key.
   */
  datatype State = State(nextId: nat, queue: seq<OrderIn>, idem: map<Key, nat>, kill: bool, bucket: Bucket,
                         counts: Counts, pushed: seq<OrderIn>, first: map<Key, nat>)

  /** gateway_init, with the id counter seeded as the bridge seeds it. */
  function Initial(base: nat): State {
    State(base, [], map[], false, Bucket(0, 2000, 2000, 10000), Counts(0, 0, 0, 0), [], map[])
  }

  /** stage_a_ingress. */
  predicate WellShaped(m: Inbound) {
    && m.Message? && m.raw.action != 0 && m.raw.source != 0 && m.raw.account != 0
    && if m.raw.action == ACT_NEW then m.raw.qty != 0 && m.raw.side < 2 && m.raw.kind <= STOP_LIMIT
       else m.raw.action in {ACT_CANCEL, ACT_MODIFY} && m.raw.target != 0
  }

  function KeyOf(r: Raw): Key {
    Key(r.account, r.client)
  }

  /** A message takes the next id, and its key is remembered under it while there is room. */
  function Numbered(s: State, k: Key): State {
    var id := s.nextId + 1;
    s.(nextId := id,
       idem := if k.client == 0 || |s.idem| == IDEM_CAP then s.idem else s.idem[k := id],
       first := if k.client == 0 || k in s.first then s.first else s.first[k := id])
  }

  /** Stage C: the status, and the id that goes with it. */
  function Admit(s: State, r: Raw, now: nat): (State, AckStatus, nat)
    requires s.bucket.last <= now
  {
    if s.kill && r.action == ACT_NEW then (s, Killed, 0)
    else
      var (b, ok) := Offer(s.bucket, now);
      var s1, k := s.(bucket := b), KeyOf(r);
      if !ok then (s1, Throttled, 0)
      else if k in s.idem then (s1, Duplicate, s.idem[k])
      else (Numbered(s1, k), Accepted, s.nextId + 1)
  }

  /** gateway_submit. */
  function Submit(s: State, m: Inbound, now: nat): (State, Ack)
    requires s.bucket.last <= now
  {
    var c := s.counts;
    if !WellShaped(m) then (s.(counts := c.(rejected := c.rejected + 1)), Ack(Rejected, 0))
    else
      var (s1, st, id) := Admit(s, m.raw, now);
      match st
      case Duplicate => (s1.(counts := c.(duplicates := c.duplicates + 1)), Ack(Duplicate, id))
      case Throttled => (s1.(counts := c.(throttled := c.throttled + 1)), Ack(Throttled, id))
      case Accepted =>
        var e := OrderIn(id, m.raw);
        if |s.queue| < RING_CAP - 1 then
          (s1.(counts := c.(accepted := c.accepted + 1), queue := s.queue + [e], pushed := s.pushed + [e]),
           Ack(Accepted, id))
        else (s1.(counts := c.(throttled := c.throttled + 1)), Ack(Throttled, 0))
      case _ => (s1.(counts := c.(rejected := c.rejected + 1)), Ack(st, id))
  }

  /** gw_ring_pop by the next stage. */
  function Pop(s: State): State {
    if s.queue == [] then s else s.(queue := s.queue[1..])
  }

  // ----- what every run keeps

  predicate Keyed(e: OrderIn) {
    e.order.client != 0
  }

  ghost predicate Ascending(p: seq<OrderIn>, nextId: nat) {
    && (forall i | 0 <= i < |p| :: 0 < p[i].serverId <= nextId)
    && (forall i, j | 0 <= i < j < |p| :: p[i].serverId < p[j].serverId)
  }

  /** The ring holds what was put on it last, in order. */
  ghost predicate Suffix(q: seq<OrderIn>, p: seq<OrderIn>) {
    |q| <= |p| && q == p[|p| - |q|..]
  }

  /** The cache holds first ids only, all of them until it is full. */
  ghost predicate Remembers(idem: map<Key, nat>, first: map<Key, nat>, nextId: nat) {
    && (forall k | k in idem :: k in first && first[k] == idem[k] && k.client != 0)
    && (forall k | k in first :: 0 < first[k] <= nextId && (|first| <= IDEM_CAP ==> k in idem))
    && |idem| <= IDEM_CAP && (|first| > IDEM_CAP ==> |idem| == IDEM_CAP)
  }

  ghost predicate PushedKnown(p: seq<OrderIn>, idem: map<Key, nat>, first: map<Key, nat>) {
    forall i | 0 <= i < |p| && Keyed(p[i]) ::
      && KeyOf(p[i].order) in first
      && (KeyOf(p[i].order) in idem ==> idem[KeyOf(p[i].order)] == p[i].serverId)
  }

  ghost predicate Inv(s: State) {
    && Ascending(s.pushed, s.nextId) && Suffix(s.queue, s.pushed) && |s.queue| < RING_CAP
    && Remembers(s.idem, s.first, s.nextId) && PushedKnown(s.pushed, s.idem, s.first)
    && s.counts.accepted == |s.pushed| && s.bucket.tokens <= s.bucket.max
  }

  lemma SizesAgree(a: map<Key, nat>, b: map<Key, nat>)
    requires forall k | k in a :: k in b
    requires forall k | k in b :: k in a
    ensures |a| == |b|
  {
    assert a.Keys == b.Keys && |a| == |a.Keys| && |b| == |b.Keys|;
  }

  lemma AdmitRemembers(s: State, r: Raw, now: nat)
    requires Remembers(s.idem, s.first, s.nextId) && s.bucket.last <= now
    ensures var s1 := Admit(s, r, now).0; Remembers(s1.idem, s1.first, s1.nextId)
  {
    hide Offer;
    var k := KeyOf(r);
    if |s.first| <= IDEM_CAP {
      SizesAgree(s.idem, s.first);
    }
    assert k !in s.idem ==> |s.idem[k := s.nextId + 1]| == |s.idem| + 1;
    assert k !in s.first ==> |s.first[k := s.nextId + 1]| == |s.first| + 1;
  }

  lemma TokensCapped(b: Bucket, now: nat)
    requires b.last <= now && b.tokens <= b.max
    ensures Offer(b, now).0.tokens <= Offer(b, now).0.max && Offer(b, now).0.last <= now
  {
  }

  lemma AdmitPushed(s: State, r: Raw, now: nat)
    requires Inv(s) && s.bucket.last <= now
    ensures var (s1, st, id) := Admit(s, r, now);
      && PushedKnown(s.pushed, s1.idem, s1.first)
      && (st == Accepted ==> PushedKnown(s.pushed + [OrderIn(id, r)], s1.idem, s1.first))
  {
    hide Offer;
    var k := KeyOf(r);
    if |s.first| <= IDEM_CAP {
      SizesAgree(s.idem, s.first);
    }
    if k !in s.idem && k.client != 0 && |s.idem| < IDEM_CAP {
      assert k !in s.first;
    }
  }

  lemma AdmitFrame(s: State, r: Raw, now: nat)
    requires s.bucket.last <= now && s.bucket.tokens <= s.bucket.max
    ensures var (s1, st, id) := Admit(s, r, now);
      && s1.queue == s.queue && s1.pushed == s.pushed
      && s1.nextId == (if st == Accepted then s.nextId + 1 else s.nextId)
      && (st == Accepted ==> id == s1.nextId)
      && s1.bucket.last <= now && s1.bucket.tokens <= s1.bucket.max
  {
    hide Offer;
    TokensCapped(s.bucket, now);
  }

  lemma PushKeeps(s: State, e: OrderIn)
    requires Ascending(s.pushed, s.nextId) && Suffix(s.queue, s.pushed) && e.serverId == s.nextId + 1
    ensures Ascending(s.pushed + [e], s.nextId + 1) && Suffix(s.queue + [e], s.pushed + [e])
    ensures Ascending(s.pushed, s.nextId + 1)
  {
  }

  lemma SubmitKeeps(s: State, m: Inbound, now: nat)
    requires Inv(s) && s.bucket.last <= now
    ensures Inv(Submit(s, m, now).0) && Submit(s, m, now).0.bucket.last <= now
  {
    hide Remembers; hide PushedKnown; hide Offer; hide Admit; hide Ascending; hide Suffix;
    if WellShaped(m) {
      AdmitRemembers(s, m.raw, now);
      AdmitPushed(s, m.raw, now);
      AdmitFrame(s, m.raw, now);
      PushKeeps(s, OrderIn(s.nextId + 1, m.raw));
    }
  }

  // ----- runs

  datatype Op = SubmitOp(m: Inbound, now: nat) | PopOp | KillOp(on: bool)

  /** The clock does not go back. */
  predicate Timely(t: nat, ops: seq<Op>)
    decreases |ops|
  {
    ops == [] ||
    if ops[0].SubmitOp? then t <= ops[0].now && Timely(ops[0].now, ops[1..]) else Timely(t, ops[1..])
  }

  function Step(s: State, op: Op): State
    requires op.SubmitOp? ==> s.bucket.last <= op.now
  {
    match op
    case SubmitOp(m, now) => Submit(s, m, now).0
    case PopOp => Pop(s)
    case KillOp(on) => s.(kill := on)
  }

  lemma LaterRefill(s: State, m: Inbound, now: nat)
    requires s.bucket.last <= now
    ensures Submit(s, m, now).0.bucket.last <= now
  {
  }

  function Run(s: State, t: nat, ops: seq<Op>): State
    requires s.bucket.last <= t && Timely(t, ops)
    decreases |ops|
  {
    if ops == [] then s
    else if ops[0].SubmitOp? then
      LaterRefill(s, ops[0].m, ops[0].now);
      Run(Step(s, ops[0]), ops[0].now, ops[1..])
    else Run(Step(s, ops[0]), t, ops[1..])
  }

  lemma {:induction false} RunKeeps(s: State, t: nat, ops: seq<Op>)
    requires Inv(s) && s.bucket.last <= t && Timely(t, ops)
    ensures Inv(Run(s, t, ops))
    decreases |ops|
  {
    if ops != [] {
      if ops[0].SubmitOp? {
        SubmitKeeps(s, ops[0].m, ops[0].now);
        hide Inv; hide Submit;
        RunKeeps(Step(s, ops[0]), ops[0].now, ops[1..]);
      } else {
        assert Inv(Step(s, ops[0]));
        hide Inv;
        RunKeeps(Step(s, ops[0]), t, ops[1..]);
      }
    }
  }

  /**
   At-most-once admission. Ids go onto the ring in strictly ascending order and come off it in that order, and
   as long as no more keys were seen than the cache holds, no two of the orders put on the ring share a key.
   */
  lemma AtMostOnce(base: nat, t: nat, ops: seq<Op>)
    requires Timely(t, ops)
    ensures var s := Run(Initial(base), t, ops);
      && Ascending(s.pushed, s.nextId) && Suffix(s.queue, s.pushed)
      && (|s.first| <= IDEM_CAP ==> forall i, j | 0 <= i < j < |s.pushed| && Keyed(s.pushed[i]) ::
            KeyOf(s.pushed[i].order) != KeyOf(s.pushed[j].order))
  {
    RunKeeps(Initial(base), t, ops);
  }

  /** A duplicate is answered with the id its key was first given, and changes nothing but the rate limit. */
  lemma DuplicateReplays(base: nat, t: nat, ops: seq<Op>, m: Inbound, now: nat)
    requires Timely(t, ops) && Run(Initial(base), t, ops).bucket.last <= now
    requires Submit(Run(Initial(base), t, ops), m, now).1.status == Duplicate
    ensures var s := Run(Initial(base), t, ops);
      var (s', ack) := Submit(s, m, now);
      && m.Message? && KeyOf(m.raw) in s.first && ack.serverId == s.first[KeyOf(m.raw)]
      && s' == s.(bucket := s'.bucket, counts := s'.counts)
  {
    hide Inv; hide Submit; hide Run;
    InitialInv(base);
    RunKeeps(Initial(base), t, ops);
    DuplicateIs(Run(Initial(base), t, ops), m, now);
  }

  lemma InitialInv(base: nat)
    ensures Inv(Initial(base))
  {
  }

  lemma DuplicateIs(s: State, m: Inbound, now: nat)
    requires Inv(s) && s.bucket.last <= now && Submit(s, m, now).1.status == Duplicate
    ensures var (s', ack) := Submit(s, m, now);
      && m.Message? && KeyOf(m.raw) in s.first && ack.serverId == s.first[KeyOf(m.raw)]
      && s' == s.(bucket := s'.bucket, counts := s'.counts)
  {
    hide Offer;
  }

  /** The cache forgets nothing, and a full one learns nothing. */
  ghost predicate Remembered(s: State, s': State) {
    && (forall k | k in s.idem :: k in s'.idem)
    && (|s.idem| == IDEM_CAP ==> s'.idem == s.idem)
  }

  lemma SubmitRemembers(s: State, m: Inbound, now: nat)
    requires s.bucket.last <= now
    ensures Remembered(s, Submit(s, m, now).0)
  {
    hide Offer;
  }

  lemma {:induction false} RunRemembers(s: State, t: nat, ops: seq<Op>)
    requires s.bucket.last <= t && Timely(t, ops)
    ensures Remembered(s, Run(s, t, ops))
    decreases |ops|
  {
    if ops != [] {
      if ops[0].SubmitOp? {
        SubmitRemembers(s, ops[0].m, ops[0].now);
        LaterRefill(s, ops[0].m, ops[0].now);
        hide Submit;
        RunRemembers(Step(s, ops[0]), ops[0].now, ops[1..]);
      } else {
        RunRemembers(Step(s, ops[0]), t, ops[1..]);
      }
    }
  }

  /**
   Sending an accepted message with a key again, after whatever else came in between, is caught exactly when the
   cache had room for it, the kill switch lets it through and the rate limit has a token for it.
   */
  lemma CaughtIff(s: State, m: Inbound, now: nat, ops: seq<Op>, later: nat)
    requires Inv(s) && s.bucket.last <= now && m.Message? && m.raw.client != 0
    requires Submit(s, m, now).1.status == Accepted && Timely(now, ops)
    requires Submit(s, m, now).0.bucket.last <= now && Run(Submit(s, m, now).0, now, ops).bucket.last <= later
    ensures var s' := Run(Submit(s, m, now).0, now, ops);
      Submit(s', m, later).1.status == Duplicate <==>
        |s.idem| < IDEM_CAP && !(s'.kill && m.raw.action == ACT_NEW) && Offer(s'.bucket, later).1
  {
    hide Offer; hide Inv; hide Run; hide Timely;
    AcceptedIs(s, m, now);
    var s1 := Submit(s, m, now).0;
    RunRemembers(s1, now, ops);
    assert KeyOf(m.raw) in Run(s1, now, ops).idem <==> |s.idem| < IDEM_CAP;
  }

  lemma AcceptedIs(s: State, m: Inbound, now: nat)
    requires s.bucket.last <= now && Inv(s) && Submit(s, m, now).1.status == Accepted
    ensures WellShaped(m) && KeyOf(m.raw) !in s.idem && |s.idem| <= IDEM_CAP
    ensures !(s.kill && m.raw.action == ACT_NEW) && Submit(s, m, now).0.kill == s.kill
    ensures Submit(s, m, now).0.idem == if m.raw.client == 0 || |s.idem| == IDEM_CAP then s.idem
      else s.idem[KeyOf(m.raw) := s.nextId + 1]
  {
    hide Offer;
  }

  /**
   A message that finds the ring full is remembered although it was turned away: sent again it is answered as
   a duplicate, under an id that is on no ring. It is not so exactly when the ring had room.
   */
  lemma TurnedAwayIff(s: State, m: Inbound, now: nat, later: nat)
    requires Inv(s) && s.bucket.last <= now <= later && WellShaped(m) && m.raw.client != 0
    requires |s.idem| < IDEM_CAP && Admit(s, m.raw, now).1 == Accepted
    requires var b := Submit(s, m, now).0.bucket; b.last <= later && Offer(b, later).1
    ensures var s1 := Submit(s, m, now).0;
      var ack := Submit(s1, m, later).1;
      && ack == Ack(Duplicate, s.nextId + 1)
      && ((exists i :: 0 <= i < |s1.pushed| && s1.pushed[i].serverId == ack.serverId) <==> |s.queue| < RING_CAP - 1)
  {
    hide Offer;
    var s1 := Submit(s, m, now).0;
    assert KeyOf(m.raw) !in s.idem && s1.idem == s.idem[KeyOf(m.raw) := s.nextId + 1];
    if |s.queue| < RING_CAP - 1 {
      assert s1.pushed[|s.pushed|].serverId == s.nextId + 1;
    }
  }

  // ----- the rate limit over whole runs

  function End(t: nat, ops: seq<Op>): nat
    decreases |ops|
  {
    if ops == [] then t else End(if ops[0].SubmitOp? then ops[0].now else t, ops[1..])
  }

  /** What was put on the ring and the tokens left are paid for by the burst and the time since t0. */
  ghost predicate Paid(s: State, t0: nat) {
    && s.bucket.rate == 10000
    && if s.bucket.last == 0 then s.counts.accepted + s.bucket.tokens <= 2000
       else
         && t0 <= s.bucket.last
         && (s.counts.accepted + s.bucket.tokens) * NS_PER_SEC <= 2000 * NS_PER_SEC + 10000 * (s.bucket.last - t0)
  }

  lemma SubmitPaid(s: State, m: Inbound, now: nat, t0: nat)
    requires Paid(s, t0) && s.bucket.last <= now && t0 <= now
    ensures Paid(Submit(s, m, now).0, t0) && Submit(s, m, now).0.bucket.last <= now
  {
    if s.bucket.last > 0 {
      OfferPays(s.bucket, now);
      hide Offer;
      MulSplit(10000, t0, s.bucket.last, Offer(s.bucket, now).0.last);
    }
  }

  lemma {:induction false} RunPaid(s: State, t0: nat, t: nat, ops: seq<Op>)
    requires Paid(s, t0) && s.bucket.last <= t && t0 <= t && Timely(t, ops)
    ensures Paid(Run(s, t, ops), t0) && Run(s, t, ops).bucket.last <= End(t, ops) && t <= End(t, ops)
    decreases |ops|
  {
    if ops != [] {
      if ops[0].SubmitOp? {
        SubmitPaid(s, ops[0].m, ops[0].now, t0);
        hide Paid; hide Submit;
        RunPaid(Step(s, ops[0]), t0, ops[0].now, ops[1..]);
      } else {
        assert Paid(Step(s, ops[0]), t0);
        hide Paid;
        RunPaid(Step(s, ops[0]), t0, t, ops[1..]);
      }
    }
  }

  /** Whatever is sent, no more reaches the ring than the burst of 2000 and 10000 a second after it. */
  lemma AcceptedBound(base: nat, t: nat, ops: seq<Op>)
    requires Timely(t, ops)
    ensures Run(Initial(base), t, ops).counts.accepted * NS_PER_SEC <= 2000 * NS_PER_SEC + 10000 * (End(t, ops) - t)
  {
    RunPaid(Initial(base), t, t, ops);
  }
}
