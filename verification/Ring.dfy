/** The fixed-size rings of the engine, the gateway and the bridge: one slot always stays empty. */
module Ring {
  import opened Arith

  /** The circular stretch of b from tail up to head. */
  function Window<T>(b: seq<T>, head: nat, tail: nat): (s: seq<T>)
    requires head < |b| && tail < |b|
    ensures |s| < |b|
  {
    if tail <= head then b[tail..head] else b[tail..] + b[..head]
  }

  lemma WindowPush<T>(b: seq<T>, head: nat, tail: nat, x: T)
    requires head < |b| && tail < |b| && Next(|b|, head) != tail
    ensures Window(b[head := x], Next(|b|, head), tail) == Window(b, head, tail) + [x]
  {
  }

  lemma WindowDrop<T>(b: seq<T>, head: nat, tail: nat)
    requires head < |b| && tail < |b| && head != tail
    ensures Window(b, head, tail) != []
    ensures Window(b, head, tail)[0] == b[tail]
    ensures Window(b, head, Next(|b|, tail)) == Window(b, head, tail)[1..]
  {
  }

  /** The window is as long as it can be exactly when one more step of head would reach tail. */
  lemma WindowFull<T>(b: seq<T>, head: nat, tail: nat)
    requires head < |b| && tail < |b|
    ensures Next(|b|, head) == tail <==> |Window(b, head, tail)| == |b| - 1
  {
  }

  class Ring<T> {
    const buf: array<T>
    var head: nat  // written next
    var tail: nat  // read next
    var dropped: nat

    ghost predicate Valid()
      reads this, buf
    {
      1 < buf.Length && head < buf.Length && tail < buf.Length
    }

    /** The queued elements, oldest first. */
    ghost function Contents(): (s: seq<T>)
      requires Valid()
      reads this, buf
      ensures |s| < buf.Length
    {
      Window(buf[..], head, tail)
    }

    constructor (capacity: nat, filler: T)
      requires 1 < capacity
      ensures Valid() && fresh(buf) && buf.Length == capacity && Contents() == [] && dropped == 0
    {
      buf := new T[capacity](_ => filler);
      head, tail, dropped := 0, 0, 0;
    }

    /** eq_push, gw_ring_push: a full ring refuses the element and counts it as dropped. */
    method Push(x: T) returns (ok: bool)
      requires Valid()
      modifies this, buf
      ensures Valid()
      ensures ok == (|old(Contents())| < buf.Length - 1)
      ensures Contents() == if ok then old(Contents()) + [x] else old(Contents())
      ensures dropped == if ok then old(dropped) else old(dropped) + 1
    {
      hide Window;
      WindowFull(buf[..], head, tail);
      var next := Successor(buf.Length, head);
      if next == tail {
        dropped := dropped + 1;
        return false;
      }
      WindowPush(buf[..], head, tail, x);
      buf[head] := x;
      head := next;
      ok := true;
    }

    /** push_event: a full ring gives up its oldest element. */
    method PushEvict(x: T)
      requires Valid()
      modifies this, buf
      ensures Valid()
      ensures var s := old(Contents());
        if |s| < buf.Length - 1 then Contents() == s + [x] && dropped == old(dropped)
        else Contents() == s[1..] + [x] && dropped == old(dropped) + 1
    {
      hide Window;
      WindowFull(buf[..], head, tail);
      var next := Successor(buf.Length, head);
      if next == tail {
        WindowDrop(buf[..], head, tail);
        tail := Successor(buf.Length, tail);
        dropped := dropped + 1;
      }
      WindowPush(buf[..], head, tail, x);
      buf[head] := x;
      head := next;
    }

    /** eq_pop, gw_ring_pop, bridge_poll_event. */
    method Pop() returns (ok: bool, x: T)
      requires Valid()
      modifies this
      ensures Valid() && dropped == old(dropped)
      ensures ok == (old(Contents()) != [])
      ensures ok ==> x == old(Contents())[0] && Contents() == old(Contents())[1..]
      ensures !ok ==> Contents() == []
    {
      x := buf[tail];
      ok := tail != head;
      if ok {
        WindowDrop(buf[..], head, tail);
        tail := Successor(buf.Length, tail);
      }
    }
  }
}
