/**
 The order-id lookup table: open addressing, linear probing, removal without tombstones.
 The table is proved to be a finite map for every hash function into its index range.
 */
module IdTable {
  import opened Arith
  import opened Types

  /** Key 0 marks an empty slot. */
  datatype Slot = Slot(key: nat, idx: nat)

  /** x lies on the circular walk that starts at a and stops just before b. */
  predicate InArc(a: nat, x: nat, b: nat) {
    if a <= b then a <= x < b else a <= x || x < b
  }

  /** How many steps of the circular walk lead from a to b. */
  function Steps(cap: nat, a: nat, b: nat): int {
    if a <= b then b - a else b - a + cap
  }

  /** Where each key is stored, and that every key is stored once. */
  ghost predicate Placed(t: seq<Slot>, pos: map<nat, nat>) {
    && (forall k | k in pos :: k != 0 && pos[k] < |t| && t[pos[k]].key == k)
    && (forall i | 0 <= i < |t| && t[i].key != 0 :: t[i].key in pos && pos[t[i].key] == i)
  }

  /** Every slot on the walk from a to b is occupied, except perhaps those on the walk from lo to hi. */
  ghost predicate Full(t: seq<Slot>, a: nat, b: nat, lo: nat, hi: nat) {
    forall x | 0 <= x < |t| && InArc(a, x, b) && !InArc(lo, x, hi) :: t[x].key != 0
  }

  /**
   A search for any key stored outside the walk from j to e meets no empty slot; a search for a key stored
   on that walk meets empty slots at most on the walk from lo to j.
   */
  ghost predicate Reachable(t: seq<Slot>, hash: nat -> nat, lo: nat, j: nat, e: nat) {
    forall i | 0 <= i < |t| && t[i].key != 0 ::
      Full(t, hash(t[i].key), i, lo, if InArc(j, i, e) then j else lo)
  }

  /** Every key is found by walking from its hash slot. */
  ghost predicate Probing(t: seq<Slot>, hash: nat -> nat) {
    Reachable(t, hash, 0, 0, 0)
  }

  // ----- an empty slot exists

  ghost function KeysBelow(t: seq<Slot>, n: nat): set<nat>
    requires n <= |t|
  {
    set i | 0 <= i < n :: t[i].key
  }

  lemma {:induction false} KeysCount(t: seq<Slot>, pos: map<nat, nat>, n: nat)
    requires Placed(t, pos) && n <= |t| && forall i | 0 <= i < n :: t[i].key != 0
    ensures |KeysBelow(t, n)| == n && KeysBelow(t, n) <= pos.Keys
  {
    if n > 0 {
      KeysCount(t, pos, n - 1);
      assert KeysBelow(t, n) == KeysBelow(t, n - 1) + {t[n - 1].key};
    } else {
      assert KeysBelow(t, n) == {};
    }
  }

  /** A table with fewer keys than slots has an empty slot. */
  lemma SomeEmpty(t: seq<Slot>, pos: map<nat, nat>) returns (e: nat)
    requires Placed(t, pos) && |pos| < |t|
    ensures e < |t| && t[e].key == 0
  {
    if forall i | 0 <= i < |t| :: t[i].key != 0 {
      KeysCount(t, pos, |t|);
      SubsetCount(KeysBelow(t, |t|), pos.Keys);
      assert false;
    }
    e :| 0 <= e < |t| && t[e].key == 0;
  }

  /** The first empty slot on the walk from j. */
  lemma {:induction false} FirstEmpty(t: seq<Slot>, j: nat, e': nat) returns (e: nat)
    requires j < |t| && e' < |t| && t[e'].key == 0
    ensures e < |t| && t[e].key == 0 && Steps(|t|, j, e) <= Steps(|t|, j, e')
    ensures forall x | 0 <= x < |t| && InArc(j, x, e) :: t[x].key != 0
    decreases Steps(|t|, j, e')
  {
    if t[j].key == 0 {
      e := j;
    } else {
      e := FirstEmpty(t, Next(|t|, j), e');
    }
  }

  // ----- the re-insertion loop of lookup_remove

  lemma ClearKeeps(t: seq<Slot>, hash: nat -> nat, i: nat, e: nat)
    requires Probing(t, hash) && forall k :: hash(k) < |t|
    requires i < |t| && e < |t| && i != e && t[e].key == 0 && t[i].key != 0
    ensures Reachable(t[i := Slot(0, 0)], hash, i, Next(|t|, i), e)
  {
  }

  /** Re-inserting the key of slot j, at the first empty slot p of its own walk, moves the frontier to the next slot. */
  lemma ReinsertKeeps(t: seq<Slot>, hash: nat -> nat, lo: nat, j: nat, e: nat, p: nat)
    requires Reachable(t, hash, lo, j, e) && forall k :: hash(k) < |t|
    requires lo < |t| && j < |t| && e < |t| && p < |t| && lo != j && lo != e && j != e && InArc(lo, j, e)
    requires t[e].key == 0 && forall x | 0 <= x < |t| && InArc(j, x, e) :: t[x].key != 0
    requires var t1 := t[j := Slot(0, 0)];
      t1[p].key == 0 && forall x | 0 <= x < |t| && InArc(hash(t[j].key), x, p) :: t1[x].key != 0
    ensures Reachable(t[j := Slot(0, 0)][p := t[j]], hash, lo, Next(|t|, j), e)
    ensures p == j || InArc(lo, p, j)
  {
    var h, t1 := hash(t[j].key), t[j := Slot(0, 0)];
    assert Full(t, h, j, lo, j);
    assert t1[j].key == 0;
    if p != j {
      assert InArc(h, p, j) && t[p].key == 0;
    }
  }

  /** The value stored for every key. */
  ghost function Stored(t: seq<Slot>, pos: map<nat, nat>): map<nat, nat>
    requires Placed(t, pos)
  {
    map k | k in pos :: t[pos[k]].idx
  }

  /** Writing a new key at the first empty slot of its walk. */
  lemma StoreKeeps(t: seq<Slot>, hash: nat -> nat, pos: map<nat, nat>, p: nat, v: Slot)
    requires Placed(t, pos) && Probing(t, hash) && forall k :: hash(k) < |t|
    requires v.key != 0 && v.key !in pos && p < |t| && t[p].key == 0
    requires forall x | 0 <= x < |t| && InArc(hash(v.key), x, p) :: t[x].key != 0
    ensures Placed(t[p := v], pos[v.key := p]) && Probing(t[p := v], hash)
    ensures Stored(t[p := v], pos[v.key := p]) == Stored(t, pos)[v.key := v.idx]
  {
  }

  lemma StoredKeys(t: seq<Slot>, pos: map<nat, nat>)
    requires Placed(t, pos)
    ensures Stored(t, pos).Keys == pos.Keys && |Stored(t, pos)| == |pos|
  {
    assert Stored(t, pos).Keys == pos.Keys;
    assert |Stored(t, pos)| == |Stored(t, pos).Keys|;
  }

  /** An empty slot on the walk of id, met before id itself, shows that id is absent. */
  lemma MissedKey(t: seq<Slot>, hash: nat -> nat, pos: map<nat, nat>, id: nat, idx: nat)
    requires Placed(t, pos) && Probing(t, hash) && forall k :: hash(k) < |t|
    requires idx < |t| && t[idx].key == 0
    requires forall x | 0 <= x < |t| && Steps(|t|, hash(id), x) < Steps(|t|, hash(id), idx) :: t[x].key != id
    ensures id !in pos
  {
  }

  /**
   The state inside the loop of lookup_remove. The slots from lo up to j may have lost their keys; the keys
   from j up to the empty slot e have yet to be re-inserted.
   */
  ghost predicate Hole(t: seq<Slot>, hash: nat -> nat, pos: map<nat, nat>, lo: nat, j: nat, e: nat) {
    && lo < |t| && j < |t| && e < |t| && lo != j && lo != e && (j == e || InArc(lo, j, e))
    && t[e].key == 0 && (forall x | 0 <= x < |t| && InArc(j, x, e) :: t[x].key != 0)
    && Placed(t, pos) && Reachable(t, hash, lo, j, e) && |pos| < |t|
  }

  lemma HoleOpens(t: seq<Slot>, hash: nat -> nat, pos: map<nat, nat>, id: nat) returns (e: nat)
    requires Placed(t, pos) && Probing(t, hash) && |pos| < |t| && (forall k :: hash(k) < |t|) && id in pos
    ensures pos[id] < |t| && Hole(t[pos[id] := Slot(0, 0)], hash, pos - {id}, pos[id], Next(|t|, pos[id]), e)
    ensures Stored(t[pos[id] := Slot(0, 0)], pos - {id}) == Stored(t, pos) - {id}
  {
    hide Reachable;
    var e' := SomeEmpty(t, pos);
    e := FirstEmpty(t, Next(|t|, pos[id]), e');
    ClearKeeps(t, hash, pos[id], e);
    assert |pos - {id}| == |pos| - 1;
  }

  lemma HoleMoves(t: seq<Slot>, hash: nat -> nat, pos: map<nat, nat>, lo: nat, j: nat, e: nat, p: nat)
    requires Hole(t, hash, pos, lo, j, e) && (forall k :: hash(k) < |t|) && j != e && p < |t|
    requires var t1 := t[j := Slot(0, 0)];
      t1[p].key == 0 && forall x | 0 <= x < |t| && InArc(hash(t[j].key), x, p) :: t1[x].key != 0
    ensures var t2, pos2 := t[j := Slot(0, 0)][p := t[j]], pos[t[j].key := p];
      Hole(t2, hash, pos2, lo, Next(|t|, j), e) && Stored(t2, pos2) == Stored(t, pos)
  {
    hide Placed; hide Reachable; hide Stored;
    ReinsertKeeps(t, hash, lo, j, e, p);
    MovePlaced(t, pos, j, p);
    assert pos[t[j].key := p].Keys == pos.Keys;
  }

  /** Moving one entry to an empty slot keeps the stored map. */
  lemma MovePlaced(t: seq<Slot>, pos: map<nat, nat>, j: nat, p: nat)
    requires Placed(t, pos) && j < |t| && p < |t| && t[j].key != 0 && t[j := Slot(0, 0)][p].key == 0
    ensures t[j].key in pos
    ensures var t2, pos2 := t[j := Slot(0, 0)][p := t[j]], pos[t[j].key := p];
      Placed(t2, pos2) && Stored(t2, pos2) == Stored(t, pos)
  {
  }

  lemma HoleCloses(t: seq<Slot>, hash: nat -> nat, pos: map<nat, nat>, lo: nat, j: nat, e: nat)
    requires Hole(t, hash, pos, lo, j, e) && t[j].key == 0 && forall k :: hash(k) < |t|
    ensures Probing(t, hash)
  {
    assert j == e;
  }

  class IdTable {
    const slots: array<Slot>
    const hash: nat -> nat
    ghost var pos: map<nat, nat>

    ghost predicate Valid()
      reads this, slots
    {
      && 0 < slots.Length
      && (forall k :: hash(k) < slots.Length)
      && Placed(slots[..], pos)
      && Probing(slots[..], hash)
      && |pos| < slots.Length
    }

    /** The abstract value: the pool index stored for each id. */
    ghost function Map(): map<nat, nat>
      requires Valid()
      reads this, slots
    {
      Stored(slots[..], pos)
    }

    constructor (capacity: nat, hash: nat -> nat)
      requires 0 < capacity && forall k :: hash(k) < capacity
      ensures Valid() && fresh(slots) && slots.Length == capacity && Map() == map[]
    {
      slots := new Slot[capacity](_ => Slot(0, 0));
      this.hash := hash;
      pos := map[];
    }

    /** lookup_insert: writes the first empty slot of the key's walk. */
    method Store(id: nat, idx: nat, ghost e: nat) returns (ghost p: nat)
      requires 0 < slots.Length && forall k :: hash(k) < slots.Length
      requires e < slots.Length && slots[e].key == 0
      modifies slots
      ensures p < slots.Length && old(slots[p].key) == 0
      ensures forall x | 0 <= x < slots.Length && InArc(hash(id), x, p) :: old(slots[x].key) != 0
      ensures slots[..] == old(slots[..])[p := Slot(id, idx)]
    {
      var s: nat := hash(id);
      while slots[s].key != 0
        invariant 0 <= s < slots.Length
        invariant forall x | 0 <= x < slots.Length && InArc(hash(id), x, s) :: slots[x].key != 0
        invariant s == hash(id) || !InArc(hash(id), e, s)
        invariant slots[..] == old(slots[..])
        decreases Steps(slots.Length, s, e)
      {
        s := Successor(slots.Length, s);
      }
      slots[s] := Slot(id, idx);
      p := s;
    }

    method Insert(id: nat, idx: nat)
      requires Valid() && id != 0 && id !in Map() && |Map()| + 1 < slots.Length
      modifies this, slots
      ensures Valid() && Map() == old(Map())[id := idx]
    {
      hide Placed; hide Probing;
      StoredKeys(slots[..], pos);
      ghost var t := slots[..];
      ghost var e := SomeEmpty(t, pos);
      ghost var p := Store(id, idx, e);
      StoreKeeps(t, hash, pos, p, Slot(id, idx));
      pos := pos[id := p];
    }

    /** The slot that holds id, or the slot count when the walk ends at an empty slot. */
    method Locate(id: nat) returns (p: nat)
      requires Valid()
      ensures if id in pos then p == pos[id] < slots.Length else p == slots.Length
    {
      var idx, i := hash(id), 0;
      while i < slots.Length
        invariant 0 <= i <= slots.Length && 0 <= idx < slots.Length
        invariant i < slots.Length ==> i == Steps(slots.Length, hash(id), idx)
        invariant i == slots.Length ==> idx == hash(id)
        invariant forall x | 0 <= x < slots.Length && Steps(slots.Length, hash(id), x) < i :: slots[x].key !in {0, id}
      {
        if slots[idx].key == 0 {
          MissedKey(slots[..], hash, pos, id, idx);
          return slots.Length;
        }
        if slots[idx].key == id {
          return idx;
        }
        idx := Successor(slots.Length, idx);
        i := i + 1;
      }
      assert id in pos ==> Steps(slots.Length, hash(id), pos[id]) < i;
      p := slots.Length;
    }

    /** lookup_find: the pool index of a live id, NIL for any other number. */
    method Find(id: nat) returns (r: nat)
      requires Valid()
      ensures r == if id in Map() then Map()[id] else NIL
    {
      var p := Locate(id);
      r := if p < slots.Length then slots[p].idx else NIL;
    }

    /** One turn of the loop in lookup_remove: takes the key out of slot j and stores it again. */
    method Reinsert(j: nat, ghost lo: nat, ghost e: nat)
      requires 0 < slots.Length && forall k :: hash(k) < slots.Length
      requires Hole(slots[..], hash, pos, lo, j, e) && j < slots.Length && j != e
      modifies this, slots
      ensures Hole(slots[..], hash, pos, lo, Next(slots.Length, j), e)
      ensures Stored(slots[..], pos) == old(Stored(slots[..], pos))
    {
      ghost var t := slots[..];
      var v := slots[j];
      slots[j] := Slot(0, 0);
      ghost var p := Store(v.key, v.idx, j);
      HoleMoves(t, hash, pos, lo, j, e, p);
      pos := pos[v.key := p];
    }

    /** lookup_remove: empties the slot of id and re-inserts the rest of its cluster. */
    method Remove(id: nat)
      requires Valid()
      modifies this, slots
      ensures Valid() && Map() == old(Map()) - {id}
    {
      hide Placed; hide Probing; hide Reachable;
      var idx := Locate(id);
      if idx == slots.Length {
        StoredKeys(slots[..], pos);
        return;
      }
      ghost var t := slots[..];
      ghost var e := HoleOpens(t, hash, pos, id);
      slots[idx] := Slot(0, 0);
      pos := pos - {id};
      assert slots[..] == t[idx := Slot(0, 0)];
      var j := Successor(slots.Length, idx);
      while slots[j].key != 0
        invariant 0 <= j < slots.Length
        invariant Hole(slots[..], hash, pos, idx, j, e)
        invariant Stored(slots[..], pos) == old(Map()) - {id}
        decreases Steps(slots.Length, j, e)
      {
        Reinsert(j, idx, e);
        j := Successor(slots.Length, j);
      }
      HoleCloses(slots[..], hash, pos, idx, j, e);
    }
  }
}
