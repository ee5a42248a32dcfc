/** The free-stack of a preallocated pool: engine/orderbook.c keeps one for orders and one for levels. */
module FreeStack {
  import opened Types

  class FreeStack {
    const slots: array<nat>
    var top: nat

    ghost predicate Valid()
      reads this, slots
    {
      top <= slots.Length < NIL
    }

    /** The free slots, the one handed out next at the end. */
    ghost function Contents(): seq<nat>
      requires Valid()
      reads this, slots
    {
      slots[..top]
    }

    /** A stack on which every slot of a pool of the given capacity is free. */
    constructor (capacity: nat)
      requires capacity < NIL
      ensures Valid() && fresh(slots) && slots.Length == capacity
      ensures Contents() == seq(capacity, i => i)
    {
      slots := new nat[capacity](i => i);
      top := capacity;
    }

    /** NIL when the pool is exhausted. */
    method Alloc() returns (idx: nat)
      requires Valid()
      modifies this
      ensures Valid()
      ensures idx == if old(Contents()) == [] then NIL else old(Contents()[top - 1])
      ensures Contents() == if old(Contents()) == [] then [] else old(Contents()[..top - 1])
    {
      if top == 0 {
        return NIL;
      }
      top := top - 1;
      idx := slots[top];
    }

    method Free(idx: nat)
      requires Valid() && |Contents()| < slots.Length
      modifies this, slots
      ensures Valid()
      ensures Contents() == old(Contents()) + [idx]
    {
      slots[top] := idx;
      top := top + 1;
    }
  }
}
