/** `safe_compare`: comparisons between integers of any two integer types,
    signed or unsigned, that compare the mathematical values (the meaning
    of C++20 `std::cmp_equal` and friends). */
module SafeCompare {
  import opened Bits

  /** An integer type: its signedness and its width in bits. */
  datatype IntType = IntType(signed: bool, bits: nat)

  predicate WellFormed(t: IntType)
  {
    t.bits >= 1
  }

  /** The values of type t: two's complement for a signed type. */
  predicate InRange(t: IntType, x: int)
    requires WellFormed(t)
  {
    if t.signed then -(Pow2(t.bits - 1) as int) <= x < Pow2(t.bits - 1)
    else 0 <= x < Pow2(t.bits)
  }

  /** `std::make_unsigned_t<T>(x)`: reduction modulo 2^bits, which keeps
      every non-negative value of T and adds 2^bits to a negative one. */
  function MakeUnsigned(t: IntType, x: int): (r: int)
    requires WellFormed(t) && InRange(t, x)
    ensures 0 <= r < Pow2(t.bits)
    ensures x >= 0 ==> r == x
    ensures x < 0 ==> r == x + Pow2(t.bits)
  {
    Pow2Halves(t.bits);
    if x >= 0 then x else x + Pow2(t.bits)
  }

  lemma Pow2Halves(bits: nat)
    requires bits >= 1
    ensures Pow2(bits) == 2 * Pow2(bits - 1)
  {
  }

  /** `cmp_equal(t, u)`: equal signedness compares directly; otherwise a
      negative signed operand is unequal, and a non-negative one is compared
      after conversion to its unsigned type. */
  function CmpEqual(T: IntType, t: int, U: IntType, u: int): (r: bool)
    requires WellFormed(T) && WellFormed(U) && InRange(T, t) && InRange(U, u)
    ensures r <==> t == u
  {
    if T.signed == U.signed then t == u
    else if T.signed then (if t < 0 then false else MakeUnsigned(T, t) == u)
    else (if u < 0 then false else t == MakeUnsigned(U, u))
  }

  /** `cmp_not_equal(t, u)`: `!cmp_equal(t, u)`. */
  function CmpNotEqual(T: IntType, t: int, U: IntType, u: int): (r: bool)
    requires WellFormed(T) && WellFormed(U) && InRange(T, t) && InRange(U, u)
    ensures r <==> t != u
  {
    !CmpEqual(T, t, U, u)
  }

  /** `cmp_less(t, u)`: a negative signed left operand is less than any
      unsigned one, and no unsigned operand is less than a negative one. */
  function CmpLess(T: IntType, t: int, U: IntType, u: int): (r: bool)
    requires WellFormed(T) && WellFormed(U) && InRange(T, t) && InRange(U, u)
    ensures r <==> t < u
  {
    if T.signed == U.signed then t < u
    else if T.signed then (if t < 0 then true else MakeUnsigned(T, t) < u)
    else (if u < 0 then false else t < MakeUnsigned(U, u))
  }

  /** `cmp_greater(t, u)`: `cmp_less(u, t)`. */
  function CmpGreater(T: IntType, t: int, U: IntType, u: int): (r: bool)
    requires WellFormed(T) && WellFormed(U) && InRange(T, t) && InRange(U, u)
    ensures r <==> t > u
  {
    CmpLess(U, u, T, t)
  }

  /** `cmp_less_equal(t, u)`: `!cmp_greater(t, u)`. */
  function CmpLessEqual(T: IntType, t: int, U: IntType, u: int): (r: bool)
    requires WellFormed(T) && WellFormed(U) && InRange(T, t) && InRange(U, u)
    ensures r <==> t <= u
  {
    !CmpGreater(T, t, U, u)
  }

  /** `cmp_greater_equal(t, u)`: `!cmp_less(t, u)`. */
  function CmpGreaterEqual(T: IntType, t: int, U: IntType, u: int): (r: bool)
    requires WellFormed(T) && WellFormed(U) && InRange(T, t) && InRange(U, u)
    ensures r <==> t >= u
  {
    !CmpLess(T, t, U, u)
  }

  /** Exactly one of less, equal and greater holds, for any two types. */
  lemma Trichotomy(T: IntType, t: int, U: IntType, u: int)
    requires WellFormed(T) && WellFormed(U) && InRange(T, t) && InRange(U, u)
    ensures CmpLess(T, t, U, u) || CmpEqual(T, t, U, u) || CmpGreater(T, t, U, u)
    ensures !(CmpLess(T, t, U, u) && CmpEqual(T, t, U, u))
    ensures !(CmpLess(T, t, U, u) && CmpGreater(T, t, U, u))
    ensures !(CmpEqual(T, t, U, u) && CmpGreater(T, t, U, u))
  {
  }

  /** A negative signed value is less than every value of every unsigned
      type and equal to none, whatever the widths. */
  lemma NegativeBelowUnsigned(T: IntType, t: int, U: IntType, u: int)
    requires WellFormed(T) && WellFormed(U) && InRange(T, t) && InRange(U, u)
    requires T.signed && !U.signed && t < 0
    ensures CmpLess(T, t, U, u) && !CmpEqual(T, t, U, u) && CmpGreater(U, u, T, t)
  {
  }

  /** The built-in comparison converts a negative signed operand to the
      unsigned type first, where it becomes at least 2^(bits-1): so `t < u`
      is false against every unsigned u of the same width below that,
      0 included, while `cmp_less` gives true. */
  lemma BuiltinLessDiffers(T: IntType, t: int, U: IntType, u: int)
    requires WellFormed(T) && WellFormed(U) && InRange(T, t) && InRange(U, u)
    requires T.signed && !U.signed && T.bits == U.bits && t < 0 && u < Pow2(T.bits - 1)
    ensures !(MakeUnsigned(T, t) < u)
    ensures CmpLess(T, t, U, u)
  {
    Pow2Halves(T.bits);
  }
}
