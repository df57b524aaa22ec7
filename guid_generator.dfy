/** `guid_generator<std::uint32_t>`: hands out identifiers by
    post-incrementing a counter, which wraps as unsigned arithmetic. */
module GuidGenerators {
  import opened Bits

  /** The identifiers that `n` calls return, starting from counter value
      `start`. */
  function Ids(start: uint32, n: nat): (r: seq<uint32>)
    ensures |r| == n
    decreases n
  {
    if n == 0 then [] else [start] + Ids(Add32(start, 1), n - 1)
  }

  /** The i-th call returns `start + i`, modulo 2^32. */
  lemma {:induction false} IdsConsecutive(start: uint32, n: nat, i: nat)
    requires i < n
    ensures Ids(start, n)[i] == (start + i) % UINT32_LIMIT
    decreases n
  {
    if i == 0 {
      ModUnique(start, UINT32_LIMIT, 0, start);
    } else {
      var next := Add32(start, 1);
      assert Ids(start, n)[i] == Ids(next, n - 1)[i - 1];
      IdsConsecutive(next, n - 1, i - 1);
      var x := (start + i) % UINT32_LIMIT;
      var t := (start + i) / UINT32_LIMIT;
      if start + 1 < UINT32_LIMIT {
        assert next == start + 1;
      } else {
        assert next == 0 && start + i == UINT32_LIMIT + (i - 1);
        ModUnique(start + i, UINT32_LIMIT, t, x);
        assert start + i == UINT32_LIMIT * t + x;
        assert i - 1 == UINT32_LIMIT * (t - 1) + x;
        ModUnique(i - 1, UINT32_LIMIT, t - 1, x);
      }
    }
  }

  /** Up to 2^32 successive calls return pairwise distinct identifiers. */
  lemma IdsDistinct(start: uint32, n: nat)
    requires n <= UINT32_LIMIT
    ensures forall i, j :: 0 <= i < j < n ==> Ids(start, n)[i] != Ids(start, n)[j]
  {
    forall i, j | 0 <= i < j < n
      ensures Ids(start, n)[i] != Ids(start, n)[j]
    {
      IdsConsecutive(start, n, i);
      IdsConsecutive(start, n, j);
      Wrap32(start + i);
      Wrap32(start + j);
    }
  }

  /** One call more than there are values returns the first one again. */
  lemma IdsWrap(start: uint32)
    ensures Ids(start, UINT32_LIMIT + 1)[UINT32_LIMIT] == start
  {
    IdsConsecutive(start, UINT32_LIMIT + 1, UINT32_LIMIT);
    ModUnique(start + UINT32_LIMIT, UINT32_LIMIT, 1, start);
  }

  class GuidGenerator {
    /** `m_Id`. */
    var id: uint32

    /** The implicit default constructor. `std::atomic<GuidType> m_Id;` is
        value-initialised (to 0) only from C++20 on; under earlier standards
        its initial value is indeterminate. The initial value is therefore a
        parameter. */
    constructor (start: uint32)
      ensures id == start
    {
      id := start;
    }

    /** `generate_unique_id()`: `m_Id++`, returning the value before the
        increment. */
    method GenerateUniqueId() returns (r: uint32)
      modifies this
      ensures r == old(id)
      ensures id == Add32(old(id), 1)
    {
      r := id;
      id := Add32(id, 1);
    }

    /** n calls in a row return `Ids(id, n)` and leave the counter n steps
        further on. */
    method GenerateMany(n: nat) returns (ids: seq<uint32>)
      modifies this
      ensures ids == Ids(old(id), n)
      ensures n > 0 ==> id == Add32(Ids(old(id), n)[n - 1], 1)
    {
      ids := [];
      var i := 0;
      ghost var start := id;
      while i < n
        invariant 0 <= i <= n
        invariant Ids(start, n) == ids + Ids(id, n - i)
        invariant i > 0 ==> id == Add32(ids[i - 1], 1)
        invariant |ids| == i
      {
        var next := GenerateUniqueId();
        ids := ids + [next];
        i := i + 1;
      }
    }
  }
}
