/** `hash_map`: a fixed array of buckets, each a growable vector of
    key-value pairs (separate chaining). */
module HashMaps {
  import opened Bits

  /** `get_index`: the hash masked with `MaxNumBuckets - 1`. The mask always
      stays below the bucket count; it is the remainder only when the count
      is a power of two (nothing in `hash_map` checks that). */
  function GetIndex(hash: nat, numBuckets: nat): (r: nat)
    requires numBuckets > 0
    ensures r < numBuckets
    ensures IsPowerOfTwo(numBuckets) ==> r == hash % numBuckets
  {
    AndAtMostMask(hash, numBuckets - 1);
    if IsPowerOfTwo(numBuckets) then MaskIsModulo(hash, numBuckets); And(hash, numBuckets - 1)
    else And(hash, numBuckets - 1)
  }

  /** Without a power-of-two bucket count some bucket is never chosen: the
      returned bucket is below the count, and no hash is masked onto it. */
  lemma MaskSkipsBucket(numBuckets: nat) returns (b: nat)
    requires numBuckets > 0 && !IsPowerOfTwo(numBuckets)
    ensures b < numBuckets
    ensures forall hash: nat :: GetIndex(hash, numBuckets) != b
  {
    b := UnmaskedBelow(numBuckets);
    forall hash: nat
      ensures GetIndex(hash, numBuckets) != b
    {
      AndAbsorb(hash, numBuckets - 1);
    }
  }

  /** With a power-of-two bucket count every bucket is chosen: hash b lands
      in bucket b. */
  lemma MaskReachesEveryBucket(numBuckets: nat, b: nat)
    requires numBuckets > 0 && IsPowerOfTwo(numBuckets) && b < numBuckets
    ensures GetIndex(b, numBuckets) == b
  {
    Bits.ModUnique(b, numBuckets, 0, b);
  }

  /** With three buckets the mask is binary 10: bucket 1 is the one skipped. */
  lemma ThreeBucketsSkipOne(hash: nat)
    ensures GetIndex(hash, 3) != 1
  {
    if hash != 0 {
      assert And(hash, 2) == 2 * And(hash / 2, 1);
    }
  }

  /** The position of the first pair in `bucket` whose key equals `key`,
      or `|bucket|` when there is none. */
  function FirstMatch<K(==), V>(bucket: seq<(K, V)>, key: K): (r: nat)
    ensures r <= |bucket|
    ensures forall j :: 0 <= j < r ==> bucket[j].0 != key
    ensures r < |bucket| ==> bucket[r].0 == key
  {
    if bucket == [] then 0
    else if bucket[0].0 == key then 0
    else 1 + FirstMatch(bucket[1..], key)
  }

  /** An iterator: a bucket index and a position inside that bucket. */
  datatype Iterator = Iterator(bucket: nat, offset: nat)

  class HashMap<K(==), V> {
    /** The `hasher`. */
    const hash: K -> nat
    /** `m_Table`: `MaxNumBuckets` buckets. */
    const table: array<seq<(K, V)>>

    constructor (numBuckets: nat, hash: K -> nat)
      requires numBuckets > 0
      ensures this.hash == hash && table.Length == numBuckets && fresh(table)
      ensures forall b :: 0 <= b < numBuckets ==> table[b] == []
    {
      this.hash := hash;
      table := new seq<(K, V)>[numBuckets](_ => []);
    }

    /** `end()`: one past the last pair of the last bucket. */
    function End(): Iterator
      reads this, table
      requires table.Length > 0
    {
      Iterator(table.Length - 1, |table[table.Length - 1]|)
    }

    /** `insert(value)`: appends the pair to the end of its bucket, whether or
        not the key is already present, and touches no other bucket. */
    method Insert(key: K, value: V)
      requires table.Length > 0
      modifies table
      ensures var b := GetIndex(hash(key), table.Length);
        && table[b] == old(table[b]) + [(key, value)]
        && forall c :: 0 <= c < table.Length && c != b ==> table[c] == old(table[c])
    {
      var idx := GetIndex(hash(key), table.Length);
      table[idx] := table[idx] + [(key, value)];
    }

    /** `find(key)`: scans bucket `get_index(key)` only, and yields the first
        pair there whose key equals `key`, or `end()`. The scan tests the
        end of the bucket before it reads a pair. */
    method Find(key: K) returns (it: Iterator)
      requires table.Length > 0
      ensures var b := GetIndex(hash(key), table.Length);
        var m := FirstMatch(table[b], key);
        it == if m < |table[b]| then Iterator(b, m) else End()
    {
      var tableIdx := GetIndex(hash(key), table.Length);
      it := End();
      var bucket := table[tableIdx];
      if bucket != [] {
        if bucket[0].0 == key {
          it := Iterator(tableIdx, 0);
        } else {
          var i := 1;
          while i < |bucket| && bucket[i].0 != key
            invariant 1 <= i <= |bucket|
            invariant forall j :: 0 <= j < i ==> bucket[j].0 != key
          {
            i := i + 1;
          }
          FirstMatchUnique(bucket, key, i);
          if i == |bucket| {
            it := End();
          } else {
            it := Iterator(tableIdx, i);
          }
        }
      }
    }
  }

  /** The properties of FirstMatch determine it. */
  lemma {:induction false} FirstMatchUnique<K, V>(bucket: seq<(K, V)>, key: K, r: nat)
    requires r <= |bucket|
    requires forall j :: 0 <= j < r ==> bucket[j].0 != key
    requires r < |bucket| ==> bucket[r].0 == key
    ensures r == FirstMatch(bucket, key)
  {
    if r > 0 {
      FirstMatchUnique(bucket[1..], key, r - 1);
    }
  }

  /** Read by `find`, a bucket holding the same key twice shows only its
      first copy; `insert` of a present key leaves `find` unchanged. */
  lemma InsertThenFirstMatch<K, V>(bucket: seq<(K, V)>, key: K, value: V)
    ensures var m := FirstMatch(bucket + [(key, value)], key);
      m == (if FirstMatch(bucket, key) < |bucket| then FirstMatch(bucket, key) else |bucket|)
  {
    var m := FirstMatch(bucket, key);
    FirstMatchUnique(bucket + [(key, value)], key, m);
  }

  /** The positions whose key the bucket loop of `find` reads as written:
      the loop, entered at position 1 once the front pair has failed to
      match, compares the key before it tests for the bucket's end. */
  function BucketReadsAsWritten<K(==), V>(bucket: seq<(K, V)>, key: K, i: nat): seq<nat>
    decreases |bucket| - i
  {
    if i >= |bucket| then [i]
    else if bucket[i].0 != key then [i] + BucketReadsAsWritten(bucket, key, i + 1)
    else [i]
  }

  /** When the key is absent from a non-empty bucket, the loop as written
      reads the pair at position `|bucket|`, which does not exist. */
  lemma {:induction false} BucketReadsPastEndAsWritten<K, V>(bucket: seq<(K, V)>, key: K, i: nat)
    requires i <= |bucket|
    requires forall j :: i <= j < |bucket| ==> bucket[j].0 != key
    ensures |bucket| in BucketReadsAsWritten(bucket, key, i)
    decreases |bucket| - i
  {
    if i < |bucket| {
      BucketReadsPastEndAsWritten(bucket, key, i + 1);
    }
  }
}
