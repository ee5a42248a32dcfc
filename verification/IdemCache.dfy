/**
 The gateway's idempotency cache: open addressing with linear probing, nothing is ever removed, and a full
 cache ignores new entries. It is proved to be a finite map for every hash function into its index range.
 */
module IdemCache {
  import opened Arith
  import opened IdTable

  const IDEM_CAP: nat := 8192

  /** (account, client order id); a client order id of 0 means "no key". */
  datatype Key = Key(account: nat, client: nat)

  datatype Entry = Entry(key: Key, serverId: nat)

  const VACANT: Entry := Entry(Key(0, 0), 0)

  predicate Used(e: Entry) {
    e.key.client != 0
  }

  /** Where each key is stored, and that every key is stored once. */
  ghost predicate At(t: seq<Entry>, pos: map<Key, nat>) {
    && (forall k | k in pos :: pos[k] < |t| && t[pos[k]].key == k && k.client != 0)
    && (forall i | 0 <= i < |t| && Used(t[i]) :: t[i].key in pos && pos[t[i].key] == i)
  }

  /** Every key is found by walking from its hash slot. */
  ghost predicate Walks(t: seq<Entry>, hash: Key -> nat) {
    forall i, x | 0 <= i < |t| && 0 <= x < |t| && Used(t[i]) && InArc(hash(t[i].key), x, i) :: Used(t[x])
  }

  ghost function Ids(t: seq<Entry>, pos: map<Key, nat>): map<Key, nat>
    requires At(t, pos)
  {
    map k | k in pos :: t[pos[k]].serverId
  }

  lemma RememberKeeps(t: seq<Entry>, hash: Key -> nat, pos: map<Key, nat>, p: nat, e: Entry)
    requires At(t, pos) && Walks(t, hash) && (forall k :: hash(k) < |t|)
    requires Used(e) && e.key !in pos && p < |t| && !Used(t[p])
    requires forall x | 0 <= x < |t| && InArc(hash(e.key), x, p) :: Used(t[x])
    ensures At(t[p := e], pos[e.key := p]) && Walks(t[p := e], hash)
    ensures Ids(t[p := e], pos[e.key := p]) == Ids(t, pos)[e.key := e.serverId]
  {
  }

  /** A vacant entry met before the key shows that the key is absent. */
  lemma Missed(t: seq<Entry>, hash: Key -> nat, pos: map<Key, nat>, k: Key, idx: nat)
    requires At(t, pos) && Walks(t, hash) && (forall k' :: hash(k') < |t|)
    requires idx < |t| && !Used(t[idx])
    requires forall x | 0 <= x < |t| && Steps(|t|, hash(k), x) < Steps(|t|, hash(k), idx) :: t[x].key != k
    ensures k !in pos
  {
  }

  /** The map holds one key for every used entry: it is full exactly when no entry is vacant. */
  lemma FullIff(t: seq<Entry>, pos: map<Key, nat>)
    requires At(t, pos)
    ensures |pos| <= |t| && (|pos| == |t| <==> forall i | 0 <= i < |t| :: Used(t[i]))
  {
    var places := set k | k in pos :: pos[k];
    SameCount(pos, pos.Keys, places);
    assert |pos| == |pos.Keys|;
    assert places <= Below(|t|);
    SubsetCount(places, Below(|t|));
    if |pos| == |t| {
      forall i | 0 <= i < |t|
        ensures Used(t[i])
      {
        assert i in places;
      }
    }
    if forall i | 0 <= i < |t| :: Used(t[i]) {
      forall i | i in Below(|t|)
        ensures i in places
      {
        assert pos[t[i].key] == i;
      }
      assert places == Below(|t|);
    }
  }

  lemma {:induction false} SameCount(pos: map<Key, nat>, keys: set<Key>, places: set<nat>)
    requires keys <= pos.Keys && places == set k | k in keys :: pos[k]
    requires forall k, k' | k in keys && k' in keys && k != k' :: pos[k] != pos[k']
    ensures |places| == |keys|
    decreases |keys|
  {
    if keys != {} {
      var k :| k in keys;
      SameCount(pos, keys - {k}, places - {pos[k]});
    }
  }

  class IdemTable {
    const slots: array<Entry>
    const hash: Key -> nat
    var count: nat
    ghost var pos: map<Key, nat>

    ghost predicate Valid()
      reads this, slots
    {
      && slots.Length == IDEM_CAP && (forall k :: hash(k) < slots.Length)
      && At(slots[..], pos) && Walks(slots[..], hash) && count == |pos|
    }

    /** The server id remembered for each key. */
    ghost function Map(): map<Key, nat>
      requires Valid()
      reads this, slots
    {
      Ids(slots[..], pos)
    }

    constructor (hash: Key -> nat)
      requires forall k :: hash(k) < IDEM_CAP
      ensures Valid() && fresh(slots) && Map() == map[]
    {
      slots := new Entry[IDEM_CAP](_ => VACANT);
      this.hash := hash;
      count := 0;
      pos := map[];
    }

    /** idem_find. */
    method Find(k: Key) returns (found: bool, id: nat)
      requires Valid()
      ensures found == (k in Map()) && (found ==> id == Map()[k])
    {
      if k.client == 0 {
        return false, 0;
      }
      var idx, i := hash(k), 0;
      while i < slots.Length
        invariant 0 <= i <= slots.Length && 0 <= idx < slots.Length
        invariant i < slots.Length ==> i == Steps(slots.Length, hash(k), idx)
        invariant i == slots.Length ==> idx == hash(k)
        invariant forall x | 0 <= x < slots.Length && Steps(slots.Length, hash(k), x) < i ::
          Used(slots[x]) && slots[x].key != k
      {
        if !Used(slots[idx]) {
          Missed(slots[..], hash, pos, k, idx);
          return false, 0;
        }
        if slots[idx].key == k {
          return true, slots[idx].serverId;
        }
        idx := Successor(slots.Length, idx);
        i := i + 1;
      }
      assert k in pos ==> Steps(slots.Length, hash(k), pos[k]) < i;
      found, id := false, 0;
    }

    /** idem_insert: a full cache stays as it is. */
    method Insert(k: Key, id: nat)
      requires Valid() && k !in Map()
      modifies this, slots
      ensures Valid()
      ensures Map() == if k.client == 0 || |old(Map())| == IDEM_CAP then old(Map()) else old(Map())[k := id]
    {
      hide At; hide Walks; hide Ids;
      IdsCount(slots[..], pos);
      if k.client == 0 {
        return;
      }
      FullIff(slots[..], pos);
      var idx, i := hash(k), 0;
      while i < slots.Length
        invariant 0 <= i <= slots.Length && 0 <= idx < slots.Length && Valid()
        invariant i < slots.Length ==> i == Steps(slots.Length, hash(k), idx)
        invariant i == slots.Length ==> idx == hash(k)
        invariant slots[..] == old(slots[..]) && pos == old(pos)
        invariant forall x | 0 <= x < slots.Length && Steps(slots.Length, hash(k), x) < i :: Used(slots[x])
      {
        if !Used(slots[idx]) {
          RememberKeeps(slots[..], hash, pos, idx, Entry(k, id));
          slots[idx] := Entry(k, id);
          count := count + 1;
          pos := pos[k := idx];
          return;
        }
        idx := Successor(slots.Length, idx);
        i := i + 1;
      }
    }
  }

  lemma IdsCount(t: seq<Entry>, pos: map<Key, nat>)
    requires At(t, pos)
    ensures Ids(t, pos).Keys == pos.Keys && |Ids(t, pos)| == |pos|
  {
    assert Ids(t, pos).Keys == pos.Keys;
    assert |Ids(t, pos)| == |Ids(t, pos).Keys|;
  }
}
