/** `bounded_hash_map`: a fixed array of slots, open addressing with linear
    probing that runs upward from the home slot and never wraps around. */
module BoundedHashMaps {
  import opened Wrappers
  import opened Bits

  /** `compute_index`: the home slot of a hash value. A power-of-two capacity
      uses the mask `hash & (capacity - 1)`, any other capacity the remainder;
      both give the same slot. */
  function ComputeIndex(hash: nat, capacity: nat): (r: nat)
    requires capacity > 0
    ensures r < capacity
    ensures r == hash % capacity
  {
    if IsPowerOfTwo(capacity) then
      MaskIsModulo(hash, capacity);
      And(hash, capacity - 1)
    else
      hash % capacity
  }

  /** The index the probe stops at: the first unused slot at or after i,
      or `|slots|` (the end iterator) when there is none. */
  function FirstFree<K, V>(slots: seq<Option<(K, V)>>, i: nat): (r: nat)
    requires i <= |slots|
    ensures i <= r <= |slots|
    ensures forall j :: i <= j < r ==> slots[j].Some?
    ensures r < |slots| ==> slots[r].None?
    decreases |slots| - i
  {
    if i == |slots| || slots[i].None? then i else FirstFree(slots, i + 1)
  }

  /** The three properties of FirstFree determine it. */
  lemma {:induction false} FirstFreeUnique<K, V>(slots: seq<Option<(K, V)>>, i: nat, r: nat)
    requires i <= r <= |slots|
    requires forall j :: i <= j < r ==> slots[j].Some?
    requires r < |slots| ==> slots[r].None?
    ensures r == FirstFree(slots, i)
    decreases r - i
  {
    if i < r {
      FirstFreeUnique(slots, i + 1, r);
    }
  }

  /** The table after inserting kv with home slot `home`: the first unused
      slot from `home` on receives kv, or nothing changes. */
  function Inserted<K, V>(slots: seq<Option<(K, V)>>, home: nat, kv: (K, V)): seq<Option<(K, V)>>
    requires home <= |slots|
  {
    var idx := FirstFree(slots, home);
    if idx < |slots| then slots[idx := Some(kv)] else slots
  }

  /** A successful insert changes exactly the chosen slot; a failed one
      happens exactly when every slot from `home` to the end is in use. */
  lemma InsertedFrame<K, V>(slots: seq<Option<(K, V)>>, home: nat, kv: (K, V))
    requires home < |slots|
    ensures var idx := FirstFree(slots, home);
      && |Inserted(slots, home, kv)| == |slots|
      && (idx == |slots| <==> forall j :: home <= j < |slots| ==> slots[j].Some?)
      && (idx < |slots| ==> Inserted(slots, home, kv)[idx] == Some(kv))
      && (forall j :: 0 <= j < |slots| && j != idx ==> Inserted(slots, home, kv)[j] == slots[j])
  {
  }

  /** `insert` never looks for an equal key: inserting a key that is already
      stored puts a second copy in another slot. */
  lemma InsertKeepsDuplicates<K, V>(slots: seq<Option<(K, V)>>, home: nat, kv: (K, V), j: nat)
    requires home < |slots| && j < |slots|
    requires slots[j].Some? && slots[j].value.0 == kv.0
    requires FirstFree(slots, home) < |slots|
    ensures var after := Inserted(slots, home, kv);
      var idx := FirstFree(slots, home);
      idx != j && after[j].Some? && after[idx].Some?
      && after[j].value.0 == kv.0 && after[idx].value.0 == kv.0
  {
  }

  /** The indices whose `in_use()` the probe loop of `insert` reads as
      written: the loop tests the slot before it tests the bound. */
  function ProbeReadsAsWritten<K, V>(slots: seq<Option<(K, V)>>, i: nat): seq<nat>
    decreases |slots| - i
  {
    if i >= |slots| then [i]
    else if slots[i].Some? then [i] + ProbeReadsAsWritten(slots, i + 1)
    else [i]
  }

  /** When every slot from `home` to the end is in use, the loop as written
      reads the slot at index Capacity, one past the array. */
  lemma {:induction false} ProbeReadsPastEndAsWritten<K, V>(slots: seq<Option<(K, V)>>, home: nat)
    requires home <= |slots|
    requires forall j :: home <= j < |slots| ==> slots[j].Some?
    ensures |slots| in ProbeReadsAsWritten(slots, home)
    decreases |slots| - home
  {
    if home < |slots| {
      ProbeReadsPastEndAsWritten(slots, home + 1);
    }
  }

  class BoundedHashMap<K, V> {
    /** The `hasher`: `std::hash<Key>` gives a `size_t`. */
    const hash: K -> nat
    /** `m_DataArray`: a slot is `Some` when `in_use()`. */
    const data: array<Option<(K, V)>>

    constructor (capacity: nat, hash: K -> nat)
      requires capacity > 0
      ensures this.hash == hash && data.Length == capacity && fresh(data)
      ensures forall j :: 0 <= j < capacity ==> data[j].None?
    {
      this.hash := hash;
      data := new Option<(K, V)>[capacity](_ => None);
    }

    /** `insert(value)`: returns the index of the slot written (the iterator)
        and true, or Capacity (the end iterator) and false when no unused slot
        exists at or after the home slot. The probe tests the bound first. */
    method Insert(key: K, value: V) returns (idx: nat, inserted: bool)
      requires data.Length > 0
      modifies data
      ensures idx == FirstFree(old(data[..]), ComputeIndex(hash(key), data.Length))
      ensures inserted <==> idx < data.Length
      ensures data[..] == Inserted(old(data[..]), ComputeIndex(hash(key), data.Length), (key, value))
    {
      var home := ComputeIndex(hash(key), data.Length);
      idx := home;
      while idx < data.Length && data[idx].Some?
        invariant home <= idx <= data.Length
        invariant forall j :: home <= j < idx ==> data[j].Some?
        decreases data.Length - idx
      {
        idx := idx + 1;
      }
      FirstFreeUnique(data[..], home, idx);
      if idx >= data.Length {
        inserted := false;
      } else {
        data[idx] := Some((key, value));
        inserted := true;
      }
    }
  }
}
