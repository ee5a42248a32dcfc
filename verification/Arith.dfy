/** Arithmetic and counting that several modules need. */
module Arith {

  lemma MulZero(a: int)
    ensures a * 0 == 0 && 0 * a == 0
  {
  }

  lemma MulComm(a: int, b: int)
    ensures a * b == b * a
  {
  }

  lemma NegMul(a: int, b: int)
    ensures (-b) * a == -(a * b)
  {
  }

  lemma Products(a: int, b: int)
    requires a >= 0 && b >= 0
    ensures a * b >= 0
  {
  }

  lemma Scale(a: int, b: int, q: nat)
    requires a <= b
    ensures a * q <= b * q && q * a <= q * b
  {
  }

  /** The next place on a circle of `capacity` places. */
  function Next(capacity: nat, i: nat): nat {
    if i + 1 == capacity then 0 else i + 1
  }

  lemma NextIsMod(capacity: nat, i: nat)
    requires i < capacity
    ensures (i + 1) % capacity == Next(capacity, i)
  {
    if i + 1 < capacity {
      SmallMod(i + 1, capacity);
    }
  }

  lemma SmallMod(x: nat, m: nat)
    requires x < m
    ensures x % m == x
  {
  }

  /** How the rings and the probing tables step from place to place. */
  method Successor(capacity: nat, i: nat) returns (next: nat)
    requires i < capacity
    ensures next == Next(capacity, i)
  {
    NextIsMod(capacity, i);
    next := (i + 1) % capacity;
  }

  lemma SubsetCount<T>(a: set<T>, b: set<T>)
    requires a <= b
    ensures |a| <= |b| && (|a| == |b| ==> a == b)
  {
    assert b == a + (b - a);
  }

  /** The indices of a pool of n slots. */
  ghost function Below(n: nat): (s: set<nat>)
    ensures |s| == n && forall i: nat :: i in s <==> i < n
  {
    if n == 0 then {} else Below(n - 1) + {n - 1}
  }
}
