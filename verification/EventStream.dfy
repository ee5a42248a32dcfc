/** The bridge's two event buffers: the staging buffer filled by the bus, and the numbered drop-oldest stream. */
module EventStream {
  import opened EngineSpec
  import opened Registry
  import Engine
  import Ring

  const STAGE_CAP: nat := 1024
  const STREAM_CAP: nat := 4096

  /** bridge_pipeline_t.staged. */
  class Stage {
    const buf: array<Event>
    var count: nat
    var lost: nat

    ghost predicate Valid()
      reads this, buf
    {
      count <= buf.Length == STAGE_CAP
    }

    ghost function Contents(): seq<Event>
      requires Valid()
      reads this, buf
    {
      buf[..count]
    }

    constructor ()
      ensures Valid() && fresh(buf) && Contents() == [] && lost == 0
    {
      buf := new Event[STAGE_CAP](_ => Trade(0, 0, 0, Types.Bid, 0, 0));
      count, lost := 0, 0;
    }

    /** on_bus_event: book updates are not staged. */
    method OnBusEvent(q: Engine.Queued)
      requires Valid()
      modifies this, buf
      ensures Valid()
      ensures var s := old(Contents()) + if q.Note? then [q.event] else [];
        if |s| <= STAGE_CAP then Contents() == s && lost == old(lost)
        else Contents() == old(Contents()) && lost == old(lost) + 1
    {
      if q.BookUpdated? {
        assert old(Contents()) + [] == old(Contents());
        return;
      }
      if count < STAGE_CAP {
        buf[count] := q.event;
        count := count + 1;
      } else {
        lost := lost + 1;
      }
    }

    method Clear()
      requires Valid()
      modifies this
      ensures Valid() && Contents() == [] && lost == old(lost)
    {
      count := 0;
    }
  }

  datatype Numbered = Numbered(number: nat, message: Message)

  /** The queue holds the newest messages under consecutive numbers, all that are newer than the last one polled if they fit. */
  ghost predicate Newest(queue: seq<Numbered>, published: seq<Message>, lastPolled: nat) {
    var n := |published|;
    && lastPolled <= n && |queue| == (if n - lastPolled < STREAM_CAP then n - lastPolled else STREAM_CAP - 1)
    && forall k | 0 <= k < |queue| :: queue[k] == Numbered(n - |queue| + k + 1, published[n - |queue| + k])
  }

  lemma NewestPush(queue: seq<Numbered>, published: seq<Message>, lastPolled: nat, m: Message)
    requires Newest(queue, published, lastPolled)
    ensures var q, p := queue + [Numbered(|published| + 1, m)], published + [m];
      if |queue| < STREAM_CAP - 1 then Newest(q, p, lastPolled) else Newest(queue[1..] + [Numbered(|published| + 1, m)], p, lastPolled)
  {
    var n, x := |published|, Numbered(|published| + 1, m);
    var q := if |queue| < STREAM_CAP - 1 then queue + [x] else queue[1..] + [x];
    forall k | 0 <= k < |q|
      ensures q[k] == Numbered(n + 1 - |q| + k + 1, (published + [m])[n + 1 - |q| + k])
    {
      if k < |q| - 1 {
        var k' := if |queue| < STREAM_CAP - 1 then k else k + 1;
        assert q[k] == queue[k'];
      }
    }
  }

  lemma NewestPoll(queue: seq<Numbered>, published: seq<Message>, lastPolled: nat)
    requires Newest(queue, published, lastPolled) && queue != []
    ensures lastPolled < queue[0].number <= |published| && queue[0].message == published[queue[0].number - 1]
    ensures Newest(queue[1..], published, queue[0].number)
  {
  }

  /** evq with its sequence numbers. */
  class Stream {
    const ring: Ring.Ring<Numbered>
    var nextSeq: nat
    // Everything ever pushed, the number polled last, and how many were polled.
    ghost var published: seq<Message>
    ghost var lastPolled: nat
    ghost var polled: nat

    ghost predicate Valid()
      reads this, ring, ring.buf
    {
      && ring.Valid() && ring.buf.Length == STREAM_CAP && nextSeq == |published|
      && Newest(ring.Contents(), published, lastPolled)
      && nextSeq == polled + |ring.Contents()| + ring.dropped
    }

    constructor ()
      ensures Valid() && fresh(ring) && fresh(ring.buf) && published == [] && polled == 0
    {
      ring := new Ring.Ring<Numbered>(STREAM_CAP, Numbered(0, TradeMsg(0, 0, 0, Types.Bid, 0, 0, 0, 0)));
      nextSeq, published, lastPolled, polled := 0, [], 0, 0;
    }

    /** push_event: a full queue gives up its oldest message. */
    method Push(m: Message)
      requires Valid()
      modifies this, ring, ring.buf
      ensures Valid() && published == old(published) + [m] && polled == old(polled) && lastPolled == old(lastPolled)
    {
      hide Ring.Window; hide Newest;
      NewestPush(ring.Contents(), published, lastPolled, m);
      nextSeq := nextSeq + 1;
      ring.PushEvict(Numbered(nextSeq, m));
      published := published + [m];
    }

    /** bridge_poll_event: numbers strictly increase, and the number tells which message it is. */
    method Poll() returns (ok: bool, x: Numbered)
      requires Valid()
      modifies this, ring
      ensures Valid() && published == old(published)
      ensures ok ==> polled == old(polled) + 1 && lastPolled == x.number
      ensures ok ==> old(lastPolled) < x.number <= |published| && x.message == published[x.number - 1]
      ensures !ok ==> polled == old(polled) && lastPolled == old(lastPolled) == |published|
    {
      hide Ring.Window;
      if ring.head != ring.tail {
        SomethingQueued();
        NewestPoll(ring.Contents(), published, lastPolled);
      }
      ok, x := ring.Pop();
      if ok {
        lastPolled, polled := x.number, polled + 1;
      }
    }

    lemma SomethingQueued()
      requires ring.Valid() && ring.head != ring.tail
      ensures ring.Contents() != []
    {
    }
  }
}
