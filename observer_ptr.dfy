/** `observer_ptr<T>`: a non-owning pointer. A pointer is an address, a
    natural number, with 0 for `nullptr`; the comparisons compare the
    addresses `get()` returns. */
module ObserverPtrs {

  /** `nullptr`. */
  const NULL: nat := 0

  class ObserverPtr {
    /** `m_Ptr`. */
    var ptr: nat

    /** `observer_ptr()` and `observer_ptr(nullptr)`: null. */
    constructor ()
      ensures Get() == NULL && !IsNonNull()
    {
      ptr := NULL;
    }

    /** `observer_ptr(ptr)`: observes `p`, so it compares equal exactly to
        the pointers that observe `p`. */
    constructor FromPointer(p: nat)
      ensures Get() == p
      ensures forall q: ObserverPtr :: Equal(this, q) <==> q.Get() == p
    {
      ptr := p;
    }

    /** `observer_ptr(observer_ptr<U> other)`: observes what `other`
        observes. */
    constructor FromOther(other: ObserverPtr)
      ensures Get() == other.Get()
    {
      ptr := other.ptr;
    }

    /** `get()` (both overloads). */
    function Get(): nat
      reads this
    {
      ptr
    }

    /** `explicit operator bool`: `get() != nullptr`. */
    function IsNonNull(): bool
      reads this
    {
      Get() != NULL
    }

    /** `release()`: returns the observed pointer and observes null from
        then on. */
    method Release() returns (ret: nat)
      modifies this
      ensures ret == old(Get())
      ensures Get() == NULL && !IsNonNull() && EqualNull(this)
    {
      ret := Get();
      ptr := NULL;
    }

    /** `reset(ptr = nullptr)`: observes `p`; `Reset(NULL)` is the call
        without an argument. */
    method Reset(p: nat)
      modifies this
      ensures Get() == p
      ensures IsNonNull() <==> p != NULL
      ensures forall q: ObserverPtr :: Equal(this, q) <==> q.Get() == p
    {
      ptr := p;
    }
  }

  /** `p1 == p2`: the observed pointers are equal. */
  function Equal(p1: ObserverPtr, p2: ObserverPtr): bool
    reads p1, p2
  {
    p1.Get() == p2.Get()
  }

  /** `p1 != p2`: `!(p1 == p2)`. */
  function NotEqual(p1: ObserverPtr, p2: ObserverPtr): (r: bool)
    reads p1, p2
    ensures r <==> p1.Get() != p2.Get()
  {
    !Equal(p1, p2)
  }

  /** `p == nullptr` and `nullptr == p`: `!p`. */
  function EqualNull(p: ObserverPtr): (r: bool)
    reads p
    ensures r <==> p.Get() == NULL
  {
    !p.IsNonNull()
  }

  /** `p != nullptr` and `nullptr != p`: `bool(p)`. */
  function NotEqualNull(p: ObserverPtr): (r: bool)
    reads p
    ensures r <==> p.Get() != NULL
  {
    p.IsNonNull()
  }

  /** `p1 < p2`: the total order `std::less` gives on the observed
      addresses. */
  function Less(p1: ObserverPtr, p2: ObserverPtr): bool
    reads p1, p2
  {
    p1.Get() < p2.Get()
  }

  /** `p1 > p2`: `p2 < p1`. */
  function Greater(p1: ObserverPtr, p2: ObserverPtr): bool
    reads p1, p2
  {
    Less(p2, p1)
  }

  /** `p1 <= p2`: `!(p2 < p1)`. */
  function LessEqual(p1: ObserverPtr, p2: ObserverPtr): bool
    reads p1, p2
  {
    !Less(p2, p1)
  }

  /** `p1 >= p2`: `!(p1 < p2)`. */
  function GreaterEqual(p1: ObserverPtr, p2: ObserverPtr): bool
    reads p1, p2
  {
    !Less(p1, p2)
  }

  /** The derived operators order the observed pointers as `<` does:
      exactly one of `<`, `==` and `>` holds, and `<=` and `>=` are `<` or
      `==` and `>` or `==`. */
  lemma DerivedOrder(p1: ObserverPtr, p2: ObserverPtr)
    ensures Less(p1, p2) || Equal(p1, p2) || Greater(p1, p2)
    ensures !(Less(p1, p2) && Equal(p1, p2)) && !(Less(p1, p2) && Greater(p1, p2))
    ensures !(Equal(p1, p2) && Greater(p1, p2))
    ensures LessEqual(p1, p2) <==> Less(p1, p2) || Equal(p1, p2)
    ensures GreaterEqual(p1, p2) <==> Greater(p1, p2) || Equal(p1, p2)
    ensures Greater(p1, p2) <==> Less(p2, p1)
  {
  }

  /** `<` is a strict order: irreflexive and transitive. */
  lemma LessStrictOrder(p1: ObserverPtr, p2: ObserverPtr, p3: ObserverPtr)
    ensures !Less(p1, p1)
    ensures Less(p1, p2) && Less(p2, p3) ==> Less(p1, p3)
  {
  }

  /** `==` is an equivalence, and it agrees with the null tests: two pointers
      that compare equal are both null or both non-null. */
  lemma EqualIsEquivalence(p1: ObserverPtr, p2: ObserverPtr, p3: ObserverPtr)
    ensures Equal(p1, p1)
    ensures Equal(p1, p2) ==> Equal(p2, p1)
    ensures Equal(p1, p2) && Equal(p2, p3) ==> Equal(p1, p3)
    ensures Equal(p1, p2) ==> (EqualNull(p1) <==> EqualNull(p2))
  {
  }

  /** The null comparisons are the negation of `operator bool` and the
      opposite of each other. */
  lemma NullTests(p: ObserverPtr)
    ensures EqualNull(p) <==> !p.IsNonNull()
    ensures NotEqualNull(p) <==> !EqualNull(p)
  {
  }

  /** `release()` followed by `reset(ret)` restores the observed pointer. */
  method ReleaseThenReset(p: ObserverPtr) returns (ret: nat)
    modifies p
    ensures ret == old(p.Get()) && p.Get() == old(p.Get())
  {
    ret := p.Release();
    p.Reset(ret);
  }
}
