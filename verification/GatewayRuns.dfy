/** Two runs of the gateway on which its promises about duplicates fail. */
module GatewayRuns {
  import opened IdemCache
  import opened RateLimit
  import opened GatewaySpec

  /** Messages a tenth of a millisecond apart: each finds the token that the one before it took. */
  function At(i: nat): nat {
    1 + i * 100_000
  }

  /** The i-th message, with a key of its own or with none. */
  function Sent(m: Raw, keyed: bool, i: nat): Raw {
    m.(client := if keyed then i + 1 else 0)
  }

  /** Messages i up to n. Those with keys are taken off the ring at once, those without stay on it. */
  function Traffic(m: Raw, keyed: bool, i: nat, n: nat): seq<Op>
    requires i <= n
    decreases n - i
  {
    if i == n then []
    else [SubmitOp(Message(Sent(m, keyed, i)), At(i))] + (if keyed then [PopOp] else []) + Traffic(m, keyed, i + 1, n)
  }

  function Numbers(base: nat, m: Raw, keyed: bool, n: nat): seq<OrderIn> {
    seq(n, i requires 0 <= i < n => OrderIn(base + i + 1, Sent(m, keyed, i)))
  }

  function Keys(base: nat, m: Raw, n: nat): map<Key, nat> {
    if n == 0 then map[] else Keys(base, m, n - 1)[Key(m.account, n) := base + n]
  }

  function Tokens(n: nat): Bucket {
    if n == 0 then Bucket(0, 2000, 2000, 10000) else Bucket(At(n - 1), 1999, 2000, 10000)
  }

  /** The gateway after n messages. */
  function After(base: nat, m: Raw, keyed: bool, n: nat): State {
    var p, k := Numbers(base, m, keyed, n), if keyed then Keys(base, m, n) else map[];
    State(base + n, if keyed then [] else p, k, false, Tokens(n), Counts(n, 0, 0, 0), p, k)
  }

  lemma Refills(n: nat)
    ensures Tokens(n).last <= At(n) && Offer(Tokens(n), At(n)) == (Tokens(n + 1), true)
    ensures Tokens(n + 1).last == At(n) <= At(n + 1)
  {
  }

  lemma {:induction false} KeysCount(base: nat, m: Raw, n: nat)
    ensures |Keys(base, m, n)| == n && forall k | k in Keys(base, m, n) :: 0 < k.client <= n
  {
    if n > 0 {
      KeysCount(base, m, n - 1);
      assert Key(m.account, n) !in Keys(base, m, n - 1);
    }
  }

  lemma NumbersGrow(base: nat, m: Raw, keyed: bool, n: nat)
    ensures |Numbers(base, m, keyed, n)| == n
    ensures Numbers(base, m, keyed, n + 1) == Numbers(base, m, keyed, n) + [OrderIn(base + n + 1, Sent(m, keyed, n))]
  {
  }

  /** One more message, and its removal from the ring if it has a key. */
  lemma TrafficStep(base: nat, m: Raw, keyed: bool, n: nat)
    requires WellShaped(Message(m)) && if keyed then n < IDEM_CAP else n < RING_CAP - 1
    ensures var s := After(base, m, keyed, n);
      && s.bucket.last <= At(n)
      && var s1 := Submit(s, Message(Sent(m, keyed, n)), At(n)).0;
        After(base, m, keyed, n + 1) == if keyed then Pop(s1) else s1
  {
    hide Offer; hide Numbers; hide At; hide Tokens;
    Refills(n);
    KeysCount(base, m, n);
    NumbersGrow(base, m, keyed, n);
  }

  lemma RunSubmit(s: State, t: nat, m: Inbound, now: nat, ops: seq<Op>)
    requires s.bucket.last <= t <= now && Submit(s, m, now).0.bucket.last <= now && Timely(now, ops)
    ensures Timely(t, [SubmitOp(m, now)] + ops)
    ensures Run(s, t, [SubmitOp(m, now)] + ops) == Run(Submit(s, m, now).0, now, ops)
  {
    hide Submit;
    assert ([SubmitOp(m, now)] + ops)[1..] == ops;
  }

  lemma RunPop(s: State, t: nat, ops: seq<Op>)
    requires s.bucket.last <= t && Timely(t, ops)
    ensures Timely(t, [PopOp] + ops) && Run(s, t, [PopOp] + ops) == Run(Pop(s), t, ops)
  {
    assert ([PopOp] + ops)[1..] == ops;
  }

  lemma {:induction false} TrafficRuns(base: nat, m: Raw, keyed: bool, i: nat, n: nat, t: nat)
    requires WellShaped(Message(m)) && i <= n && n <= if keyed then IDEM_CAP else RING_CAP - 1
    requires Tokens(i).last <= t <= At(i)
    ensures var ops := Traffic(m, keyed, i, n);
      Timely(t, ops) && Run(After(base, m, keyed, i), t, ops) == After(base, m, keyed, n)
    decreases n - i
  {
    hide Submit; hide At; hide Tokens; hide Timely; hide Run; hide Numbers; hide Keys;
    if i < n {
      var s, more := After(base, m, keyed, i), Traffic(m, keyed, i + 1, n);
      var sent := Message(Sent(m, keyed, i));
      Refills(i);
      Refills(i + 1);
      TrafficStep(base, m, keyed, i);
      TrafficRuns(base, m, keyed, i + 1, n, At(i));
      var rest := (if keyed then [PopOp] else []) + more;
      var s1 := Submit(s, sent, At(i)).0;
      if keyed {
        RunPop(s1, At(i), more);
      } else {
        assert rest == more;
      }
      RunSubmit(s, t, sent, At(i), rest);
      assert Traffic(m, keyed, i, n) == [SubmitOp(sent, At(i))] + rest;
    } else {
      NothingRuns(After(base, m, keyed, i), t);
    }
  }

  lemma NothingRuns(s: State, t: nat)
    requires s.bucket.last <= t
    ensures Timely(t, []) && Run(s, t, []) == s
  {
  }

  /** Where the runs end, and that two more messages get through the rate limit at the next moment. */
  lemma TrafficEnds(base: nat, m: Raw, keyed: bool, n: nat)
    requires WellShaped(Message(m)) && n <= if keyed then IDEM_CAP else RING_CAP - 1
    ensures var ops := Traffic(m, keyed, 0, n); Timely(0, ops) && Run(Initial(base), 0, ops) == After(base, m, keyed, n)
    ensures Tokens(n).last <= At(n) && Offer(Tokens(n), At(n)) == (Tokens(n + 1), true)
    ensures Tokens(n + 1).last <= At(n) && Offer(Tokens(n + 1), At(n)).1
  {
    Refills(n);
    assert Numbers(base, m, keyed, 0) == [];
    assert After(base, m, keyed, 0) == Initial(base);
    hide After; hide Initial; hide Run;
    TrafficRuns(base, m, keyed, 0, n, 0);
  }

  /**
   The case of TurnedAwayIff, from the start: behind messages that fill the ring another one is turned away, and
   sent again it is a duplicate of an order that was never put on the ring.
   */
  lemma TurnedAwayExample(base: nat, m: Raw)
    requires WellShaped(Message(m)) && m.client != 0
    ensures var ops, now := Traffic(m, false, 0, RING_CAP - 1), At(RING_CAP - 1);
      && Timely(0, ops)
      && var s := Run(Initial(base), 0, ops);
      && s.bucket.last <= now
      && var (s1, first) := Submit(s, Message(m), now);
      && first == Ack(Throttled, 0) && s1.bucket.last <= now
      && Submit(s1, Message(m), now).1 == Ack(Duplicate, base + RING_CAP)
      && forall i | 0 <= i < |s1.pushed| :: s1.pushed[i].serverId != base + RING_CAP
  {
    hide Offer; hide At; hide Tokens; hide Run; hide Timely; hide Traffic; hide Initial;
    TrafficEnds(base, m, false, RING_CAP - 1);
  }

  /** The case of CaughtIff, from the start: once the cache is full, a message sent twice is two orders of one key. */
  lemma FullCacheExample(base: nat, m: Raw)
    requires WellShaped(Message(m))
    ensures var ops, now, last := Traffic(m, true, 0, IDEM_CAP), At(IDEM_CAP), m.(client := IDEM_CAP + 1);
      && Timely(0, ops)
      && var s := Run(Initial(base), 0, ops);
      && s.bucket.last <= now && |s.idem| == IDEM_CAP
      && var (s1, first) := Submit(s, Message(last), now);
      && first == Ack(Accepted, base + IDEM_CAP + 1) && s1.bucket.last <= now
      && var (s2, second) := Submit(s1, Message(last), now);
      && second == Ack(Accepted, base + IDEM_CAP + 2)
      && s2.queue == [OrderIn(first.serverId, last), OrderIn(second.serverId, last)]
  {
    hide Offer; hide At; hide Tokens; hide Run; hide Timely; hide Traffic; hide Initial; hide Numbers;
    TrafficEnds(base, m, true, IDEM_CAP);
    KeysCount(base, m, IDEM_CAP);
    hide Keys;
  }
}
