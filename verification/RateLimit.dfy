/** The gateway's token bucket as a function of its calls, and the bound it puts on them. */
module RateLimit {
  import opened Arith

  const NS_PER_SEC: nat := 1_000_000_000

  /** last is the time of the last refill, 0 when there has been none. */
  datatype Bucket = Bucket(last: nat, tokens: nat, max: nat, rate: nat)

  /** rl_refill: a refill that adds nothing also leaves its time alone. */
  function Refill(b: Bucket, now: nat): Bucket
    requires b.last <= now
  {
    if b.last == 0 then b.(last := now)
    else
      var add := (now - b.last) * b.rate / NS_PER_SEC;
      if add == 0 then b
      else b.(tokens := if b.tokens + add > b.max then b.max else b.tokens + add, last := now)
  }

  /** rl_take. */
  function Take(b: Bucket): (Bucket, bool) {
    if b.tokens == 0 then (b, false) else (b.(tokens := b.tokens - 1), true)
  }

  function Offer(b: Bucket, now: nat): (Bucket, bool)
    requires b.last <= now
  {
    Take(Refill(b, now))
  }

  /** The clock readings never go back, nor behind the last refill. */
  ghost predicate Clock(from: nat, times: seq<nat>) {
    && (forall i | 0 <= i < |times| :: from <= times[i])
    && (forall i, j | 0 <= i < j < |times| :: times[i] <= times[j])
  }

  /** How many of the calls at these times get through. */
  ghost function Takes(b: Bucket, times: seq<nat>): nat
    requires Clock(b.last, times)
    decreases |times|
  {
    if times == [] then 0
    else
      var (b', ok) := Offer(b, times[0]);
      (if ok then 1 else 0) + Takes(b', times[1..])
  }

  lemma QuotientBounds(n: nat)
    ensures n / NS_PER_SEC * NS_PER_SEC <= n < n / NS_PER_SEC * NS_PER_SEC + NS_PER_SEC
  {
  }

  /** Added tokens are paid for by the time that passed. */
  lemma RefillPays(b: Bucket, now: nat)
    requires 0 < b.last <= now
    ensures var b1 := Refill(b, now);
      && b.last <= b1.last <= now && b1.rate == b.rate && b1.max == b.max
      && (b.tokens <= b.max ==> b1.tokens <= b.max)
      && b1.tokens * NS_PER_SEC <= b.tokens * NS_PER_SEC + b.rate * (b1.last - b.last)
  {
    var n := (now - b.last) * b.rate;
    MulComm(now - b.last, b.rate);
    Scale(0, now - b.last, b.rate);
    MulZero(b.rate);
    QuotientBounds(n);
  }

  lemma TakePays(b: Bucket)
    ensures var (b', ok) := Take(b); (if ok then 1 else 0) + b'.tokens == b.tokens && b' == b.(tokens := b'.tokens)
  {
  }

  /** Tokens and passed calls are paid for by the tokens before and the time that passed. */
  lemma OfferPays(b: Bucket, now: nat)
    requires 0 < b.last <= now
    ensures var (b', ok) := Offer(b, now);
      && b.last <= b'.last <= now && b'.rate == b.rate && b'.max == b.max
      && (b.tokens <= b.max ==> b'.tokens <= b.max)
      && ((if ok then 1 else 0) + b'.tokens) * NS_PER_SEC <= b.tokens * NS_PER_SEC + b.rate * (b'.last - b.last)
  {
    hide Refill; hide Take;
    RefillPays(b, now);
    TakePays(Refill(b, now));
  }

  lemma MulSplit(rate: nat, a: int, b: int, c: int)
    ensures rate * (c - a) == rate * (b - a) + rate * (c - b)
  {
  }

  lemma {:induction false} TakesPaid(b: Bucket, times: seq<nat>)
    requires Clock(b.last, times) && 0 < b.last && times != []
    ensures Takes(b, times) * NS_PER_SEC <= b.tokens * NS_PER_SEC + b.rate * (times[|times| - 1] - b.last)
    decreases |times|
  {
    var (b', ok) := Offer(b, times[0]);
    OfferPays(b, times[0]);
    hide Offer;
    var end := times[|times| - 1];
    if |times| == 1 {
      assert Takes(b', times[1..]) == 0;
      Scale(b'.last - b.last, end - b.last, b.rate);
    } else {
      TakesPaid(b', times[1..]);
      MulSplit(b.rate, b.last, b'.last, end);
    }
  }

  lemma QuotientZero(n: nat)
    ensures n / NS_PER_SEC == 0 <==> n < NS_PER_SEC
  {
  }

  /** A refill that was put off is worth less than one token. */
  lemma SmallLag(b: Bucket, now: nat)
    requires b.last <= now
    ensures var b1 := Refill(b, now); b1.last <= now && (b1.last > 0 ==> 0 <= b1.rate * (now - b1.last) < NS_PER_SEC)
  {
    MulComm(now - b.last, b.rate);
    Scale(0, now - b.last, b.rate);
    MulZero(b.rate);
    QuotientZero((now - b.last) * b.rate);
  }

  /** Refilling twice at the same time is refilling once. */
  lemma RefillTwice(b: Bucket, now: nat)
    requires b.last <= now
    ensures Refill(b, now).last <= now && Refill(Refill(b, now), now) == Refill(b, now)
    ensures var b1 := Refill(b, now); b1.last > 0 ==> b1.rate * (now - b1.last) < NS_PER_SEC
  {
    var b1 := Refill(b, now);
    SmallLag(b, now);
    if b1.last > 0 {
      RefillNothing(b1, now);
    } else {
      assert now == 0 || b.last == 0;
    }
  }

  lemma RefillNothing(b: Bucket, now: nat)
    requires 0 < b.last <= now && 0 <= b.rate * (now - b.last) < NS_PER_SEC
    ensures Refill(b, now) == b
  {
    MulComm(now - b.last, b.rate);
    QuotientZero((now - b.last) * b.rate);
  }

  /**
   The promise of the rate limit. Over any stretch of calls, however the bucket stood and whatever refills
   were put off, fewer calls get through than the burst size, plus one, plus the rate times the elapsed time.
   */
  lemma WindowBound(b: Bucket, times: seq<nat>)
    requires Clock(b.last, times) && times != [] && b.tokens <= b.max
    ensures Takes(b, times) * NS_PER_SEC
      < (b.max + 1) * NS_PER_SEC + b.rate * (times[|times| - 1] - times[0])
  {
    var t, end := times[0], times[|times| - 1];
    var b1 := Refill(b, t);
    RefillTwice(b, t);
    SameTakes(b, b1, times);
    Scale(0, end - t, b.rate);
    if b1.last > 0 {
      TakesPaid(b1, times);
      MulSplit(b.rate, b1.last, t, end);
    } else {
      StillZero(b1, times);
    }
  }

  lemma SameTakes(b: Bucket, b1: Bucket, times: seq<nat>)
    requires Clock(b.last, times) && times != [] && b1 == Refill(b, times[0]) && b1.last <= times[0]
    requires Refill(b1, times[0]) == b1
    ensures Clock(b1.last, times) && Takes(b1, times) == Takes(b, times)
  {
  }

  /** Until the clock shows something other than zero nothing is ever added. */
  lemma {:induction false} StillZero(b: Bucket, times: seq<nat>)
    requires b.last == 0 && Clock(0, times) && times != []
    ensures Takes(b, times) * NS_PER_SEC <= b.tokens * NS_PER_SEC + b.rate * (times[|times| - 1] - times[0])
    decreases |times|
  {
    var (b', ok) := Offer(b, times[0]);
    var end := times[|times| - 1];
    Scale(0, end - times[0], b.rate);
    if |times| > 1 {
      if times[0] == 0 {
        StillZero(b', times[1..]);
        Scale(end - times[1], end - times[0], b.rate);
      } else {
        TakesPaid(b', times[1..]);
      }
    } else {
      assert Takes(b', times[1..]) == 0;
    }
  }

  /** From initialisation on, with the first call as the start of the clock, the extra one is not needed. */
  lemma TakesBound(max: nat, rate: nat, times: seq<nat>)
    requires Clock(0, times) && times != []
    ensures Takes(Bucket(0, max, max, rate), times) * NS_PER_SEC
      <= max * NS_PER_SEC + rate * (times[|times| - 1] - times[0])
  {
    StillZero(Bucket(0, max, max, rate), times);
  }
}
