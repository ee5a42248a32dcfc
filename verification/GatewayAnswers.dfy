/** What a sender can count on at the gateway, stated over the message and the numbers of the bucket alone. */
module GatewayAnswers {
  import opened Arith
  import opened IdemCache
  import opened RateLimit
  import opened GatewaySpec

  function Least(a: nat, b: nat): nat {
    if a <= b then a else b
  }

  /** The tokens there are at a moment: what was left and what has accrued since, up to the burst. */
  function Available(b: Bucket, now: nat): nat
    requires b.last <= now
  {
    if b.last == 0 then b.tokens else Least(b.max, b.tokens + b.rate * (now - b.last) / 1_000_000_000)
  }

  lemma OfferIs(b: Bucket, now: nat)
    requires b.last <= now && b.tokens <= b.max
    ensures var (b', ok) := Offer(b, now);
      && ok == (Available(b, now) > 0) && b'.tokens == (if ok then Available(b, now) - 1 else 0)
      && b'.max == b.max && b'.rate == b.rate && b.last <= b'.last <= now && (0 < now ==> 0 < b'.last)
      && (0 < now ==> Available(b', now) == b'.tokens)
  {
    MulComm(now - b.last, b.rate);
    MulZero(b.rate);
    if 0 < b.last && (now - b.last) * b.rate / NS_PER_SEC > 0 {
      Scale(0, now - b.last, b.rate);
    }
  }

  lemma SameMoment(n: nat, now: nat)
    requires n > 0
    ensures seq(n, _ => now)[0] == now && seq(n, _ => now)[1..] == seq(n - 1, _ => now)
  {
  }

  /**
   Of n calls at one moment as many pass as there are tokens: elapsed time gives them back at the full rate, up to
   the burst.
   */
  lemma {:induction false} BurstPasses(b: Bucket, now: nat, n: nat)
    requires b.last <= now && 0 < now && b.tokens <= b.max
    ensures Clock(b.last, seq(n, _ => now)) && Takes(b, seq(n, _ => now)) == Least(n, Available(b, now))
    decreases n
  {
    if n > 0 {
      var times := seq(n, _ => now);
      SameMoment(n, now);
      OfferIs(b, now);
      var (b', ok) := Offer(b, now);
      hide Offer; hide Available;
      AvailableCapped(b, now);
      BurstPasses(b', now, n - 1);
      assert Takes(b, times) == (if ok then 1 else 0) + Takes(b', times[1..]);
    }
  }

  lemma AvailableCapped(b: Bucket, now: nat)
    requires b.last <= now && b.tokens <= b.max
    ensures Available(b, now) <= b.max
  {
  }

  /** Which messages are refused for their form. */
  predicate Misshapen(m: Inbound) {
    || m.Missing? || m.raw.source == 0 || m.raw.account == 0 || m.raw.action !in {1, 2, 3}
    || (m.raw.action == 1 && (m.raw.qty == 0 || m.raw.side > 1 || m.raw.kind > 5))
    || (m.raw.action != 1 && m.raw.target == 0)
  }

  /** The whole answer of the gateway: acknowledgement, counters, ring, and the tokens that are left. */
  lemma SubmitAnswers(s: State, m: Inbound, now: nat)
    requires s.bucket.last <= now && s.bucket.tokens <= s.bucket.max
    ensures var (s', ack) := Submit(s, m, now);
      var c, tokens := s.counts, Available(s.bucket, now);
      if Misshapen(m) then
        ack == Ack(Rejected, 0) && s' == s.(counts := c.(rejected := c.rejected + 1))
      else if s.kill && m.raw.action == 1 then
        ack == Ack(Killed, 0) && s' == s.(counts := c.(rejected := c.rejected + 1))
      else if tokens == 0 then
        ack == Ack(Throttled, 0) && s' == s.(bucket := s'.bucket, counts := c.(throttled := c.throttled + 1))
        && s'.bucket.tokens == 0
      else
        && s'.bucket.tokens == tokens - 1
        && var k := Key(m.raw.account, m.raw.client);
          if k in s.idem then
            ack == Ack(Duplicate, s.idem[k])
            && s' == s.(bucket := s'.bucket, counts := c.(duplicates := c.duplicates + 1))
          else
            && s'.nextId == s.nextId + 1 && s'.kill == s.kill
            && s'.idem == (if m.raw.client == 0 || |s.idem| == 8192 then s.idem else s.idem[k := s.nextId + 1])
            && if |s.queue| >= 4095 then
                 ack == Ack(Throttled, 0) && s'.queue == s.queue && s'.counts == c.(throttled := c.throttled + 1)
               else
                 && ack == Ack(Accepted, s.nextId + 1) && s'.counts == c.(accepted := c.accepted + 1)
                 && s'.queue == s.queue + [OrderIn(s.nextId + 1, m.raw)]
  {
    OfferIs(s.bucket, now);
    hide Offer; hide Available;
  }
}
