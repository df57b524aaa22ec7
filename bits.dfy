/** Bitwise AND on non-negative integers, and the facts the two hash tables
    rely on when they turn a hash into a bucket index with a mask. A `size_t`
    hash is an integer below 2^64; And never leaves that range. Also the
    `uint32_t` type and its wrapping addition. */
module Bits {

  const UINT32_LIMIT: int := 0x1_0000_0000

  /** `uint32_t`. */
  type uint32 = x: int | 0 <= x < UINT32_LIMIT

  /** `uint32_t` addition: the sum is reduced modulo 2^32. */
  function Add32(a: uint32, b: uint32): (r: uint32)
    ensures r == (a + b) % UINT32_LIMIT
  {
    Wrap32(a + b);
    if a + b < UINT32_LIMIT then a + b else a + b - UINT32_LIMIT
  }

  /** Below 2^33, reduction modulo 2^32 subtracts 2^32 at most once. */
  lemma Wrap32(x: nat)
    requires x < 2 * UINT32_LIMIT
    ensures x % UINT32_LIMIT == if x < UINT32_LIMIT then x else x - UINT32_LIMIT
  {
    if x < UINT32_LIMIT {
      ModUnique(x, UINT32_LIMIT, 0, x);
    } else {
      ModUnique(x, UINT32_LIMIT, 1, x - UINT32_LIMIT);
    }
  }

  function Pow2(k: nat): (r: nat)
    ensures r >= 1
  {
    if k == 0 then 1 else 2 * Pow2(k - 1)
  }

  /** `a & b`, bit by bit from the least significant end. */
  function And(a: nat, b: nat): nat
    decreases a
  {
    if a == 0 || b == 0 then 0
    else 2 * And(a / 2, b / 2) + (if a % 2 == 1 && b % 2 == 1 then 1 else 0)
  }

  /** `(c & (c - 1)) == 0`, the test `is_power_of_two` performs. */
  predicate IsPowerOfTwo(c: nat)
    requires c > 0
  {
    And(c, c - 1) == 0
  }

  /** Masking never yields more than the mask. */
  lemma {:induction false} AndAtMostMask(a: nat, b: nat)
    ensures And(a, b) <= b
  {
    if a != 0 && b != 0 {
      AndAtMostMask(a / 2, b / 2);
    }
  }

  lemma {:induction false} AndSelf(x: nat)
    ensures And(x, x) == x
  {
    if x != 0 {
      AndSelf(x / 2);
    }
  }

  /** Splitting off the lowest bit commutes with reducing modulo 2p. */
  lemma ModDouble(h: nat, p: nat)
    requires p >= 1
    ensures h % (2 * p) == 2 * ((h / 2) % p) + h % 2
  {
    var q, r := h / 2, h % 2;
    var t, u := q / p, q % p;
    assert h == (2 * p) * t + (2 * u + r);
    assert 0 <= 2 * u + r < 2 * p;
    ModUnique(h, 2 * p, t, 2 * u + r);
  }

  lemma ModUnique(a: nat, m: nat, t: nat, x: nat)
    requires m >= 1 && 0 <= x < m && a == m * t + x
    ensures a % m == x
  {
    var q, s := a / m, a % m;
    assert a == m * q + s;
    if q < t {
      MulAtLeast(m, t - q);
      assert false;
    } else if q > t {
      MulAtLeast(m, q - t);
      assert false;
    }
  }

  lemma MulAtLeast(m: nat, d: nat)
    requires d >= 1
    ensures m * d >= m
  {
  }

  /** Masking with `2^k - 1` keeps the low k bits: it is reduction modulo 2^k. */
  lemma {:induction false} AndLowMask(h: nat, k: nat)
    ensures And(h, Pow2(k) - 1) == h % Pow2(k)
  {
    if k == 0 {
      assert Pow2(k) == 1;
    } else if h == 0 {
    } else {
      var p := Pow2(k - 1);
      var m := 2 * p - 1;
      assert Pow2(k) == 2 * p;
      LowMaskHalves(p);
      assert And(h, m) == 2 * And(h / 2, p - 1) + h % 2;
      AndLowMask(h / 2, k - 1);
      assert And(h / 2, p - 1) == (h / 2) % p;
      ModDouble(h, p);
    }
  }

  /** The mask `2p - 1` has its lowest bit set, and halving it gives `p - 1`. */
  lemma LowMaskHalves(p: nat)
    requires p >= 1
    ensures (2 * p - 1) % 2 == 1 && (2 * p - 1) / 2 == p - 1
  {
  }

  lemma Pow2IsPowerOfTwo(k: nat)
    ensures IsPowerOfTwo(Pow2(k))
  {
    AndLowMask(Pow2(k), k);
  }

  /** The converse: a positive c passing the test is a power of two. */
  lemma {:induction false} PowerOfTwoIsPow2(c: nat) returns (k: nat)
    requires c > 0 && IsPowerOfTwo(c)
    ensures c == Pow2(k)
  {
    if c == 1 {
      k := 0;
    } else if c % 2 == 0 {
      assert (c - 1) / 2 == c / 2 - 1 && (c - 1) % 2 == 1;
      assert And(c, c - 1) == 2 * And(c / 2, c / 2 - 1);
      var j := PowerOfTwoIsPow2(c / 2);
      k := j + 1;
    } else {
      assert (c - 1) / 2 == c / 2;
      AndSelf(c / 2);
      assert false;
    }
  }

  /** Masking twice with the same mask is masking once: `h & m` only keeps
      bits of m. */
  lemma {:induction false} AndAbsorb(a: nat, m: nat)
    ensures And(And(a, m), m) == And(a, m)
  {
    if a != 0 && m != 0 {
      AndAbsorb(a / 2, m / 2);
      var x := And(a, m);
      if x != 0 {
        assert x / 2 == And(a / 2, m / 2) && x % 2 == (if a % 2 == 1 && m % 2 == 1 then 1 else 0);
      }
    }
  }

  /** When c is not a power of two, some b below c is not kept whole by the
      mask `c - 1`: one of its bits is missing from the mask. */
  lemma {:induction false} UnmaskedBelow(c: nat) returns (b: nat)
    requires c > 0 && !IsPowerOfTwo(c)
    ensures b < c && And(b, c - 1) != b
  {
    var m := c - 1;
    if m % 2 == 0 {
      // An even mask clears bit 0; c = 1 is a power of two, so m >= 2.
      b := 1;
      assert And(1, m) == 2 * And(0, m / 2);
    } else {
      var q := m / 2;
      assert c % 2 == 0 && c / 2 == q + 1 && (c - 1) / 2 == q;
      assert And(c, c - 1) == 2 * And(q + 1, q);
      var b' := UnmaskedBelow(q + 1);
      b := 2 * b' + 1;
      assert b / 2 == b' && b % 2 == 1 && m / 2 == q;
      assert And(b, m) == 2 * And(b', q) + 1;
    }
  }

  /** When c is a power of two, `h & (c - 1)` equals `h % c`. */
  lemma MaskIsModulo(h: nat, c: nat)
    requires c > 0 && IsPowerOfTwo(c)
    ensures And(h, c - 1) == h % c
  {
    var k := PowerOfTwoIsPow2(c);
    AndLowMask(h, k);
  }
}
