/** `bounded_vector`: a fixed array of `MaxElems` slots and an end cursor
    (`m_LastElem`); the elements are the slots before the cursor. */
module BoundedVectors {
  import opened Wrappers

  class BoundedVector<T(0, ==)> {
    /** `m_Elems`. */
    const elems: array<T>
    /** `m_LastElem`, as the index it points at. */
    var last: nat

    ghost predicate Valid()
      reads this
    {
      last <= elems.Length
    }

    /** The elements, in order. */
    ghost function Contents(): seq<T>
      reads this, elems
      requires Valid()
    {
      elems[..last]
    }

    /** `bounded_vector()`: the cursor starts at slot 0. */
    constructor (capacity: nat)
      ensures Valid() && fresh(elems) && elems.Length == capacity
      ensures Contents() == []
    {
      elems := new T[capacity];
      last := 0;
    }

    /** `capacity()`: `MaxElems`. */
    function Capacity(): nat
      reads this
    {
      elems.Length
    }

    /** `size()`: `end() - begin()`. */
    function Size(): (r: nat)
      reads this, elems
      requires Valid()
      ensures r == |Contents()| && r <= Capacity()
    {
      last
    }

    /** `empty()`: `begin() == end()`. */
    function Empty(): (r: bool)
      reads this, elems
      requires Valid()
      ensures r <==> Contents() == []
    {
      last == 0
    }

    /** `at(pos)` with the bound test `pos >= size()`: out_of_range for
        every position that holds no element. */
    function At(pos: nat): (r: Result<T>)
      reads this, elems
      requires Valid()
      ensures r.Err? <==> pos >= |Contents()|
      ensures r.Err? ==> r.error == OutOfRange
      ensures r.Ok? ==> r.value == Contents()[pos]
    {
      if pos >= last then Err(OutOfRange) else Ok(elems[pos])
    }

    /** `push_back(elem)`: below capacity, writes the end slot and advances
        the cursor; at capacity throws runtime_error and changes nothing. */
    method PushBack(elem: T) returns (o: Outcome)
      requires Valid()
      modifies this, elems
      ensures Valid()
      ensures o == (if old(last) < elems.Length then Pass else Fail(RuntimeError))
      ensures Contents() == if o.Pass? then old(Contents()) + [elem] else old(Contents())
      ensures o.Fail? ==> elems[..] == old(elems[..])
    {
      if last < elems.Length {
        elems[last] := elem;
        last := last + 1;
        o := Pass;
      } else {
        o := Fail(RuntimeError);
      }
    }

    /** `emplace_back(args...)`: as `push_back`, with the element built in
        the end slot; `elem` stands for the built element. */
    method EmplaceBack(elem: T) returns (o: Outcome)
      requires Valid()
      modifies this, elems
      ensures Valid()
      ensures o == (if old(last) < elems.Length then Pass else Fail(RuntimeError))
      ensures Contents() == if o.Pass? then old(Contents()) + [elem] else old(Contents())
      ensures o.Fail? ==> elems[..] == old(elems[..])
    {
      if last < elems.Length {
        elems[last] := elem;
        last := last + 1;
        o := Pass;
      } else {
        o := Fail(RuntimeError);
      }
    }

    /** `pop_back()`: steps the cursor back. The cursor is decremented with
        no test, so it needs a non-empty vector. */
    method PopBack()
      requires Valid() && last > 0
      modifies this`last
      ensures Valid()
      ensures Contents() == old(Contents())[..|old(Contents())| - 1]
    {
      last := last - 1;
    }

    /** `reset()`: pops until the vector is empty. */
    method Reset()
      requires Valid()
      modifies this`last
      ensures Valid() && Contents() == []
    {
      while last != 0
        invariant Valid()
        decreases last
      {
        PopBack();
      }
    }

    /** `clear()`: `reset()`. */
    method Clear()
      requires Valid()
      modifies this`last
      ensures Valid() && Contents() == []
    {
      Reset();
    }

    /** `emplace(pos, args...)`: below capacity, walks the free end slot down
        to `pos` with `iter_swap`, each swap moving one element up by one, and
        builds the new element at `pos` and returns an iterator to it. At
        capacity throws runtime_error. With `pos == end()` the walk never
        stops, so `pos` must name an element. */
    method Emplace(pos: nat, elem: T) returns (r: Result<nat>)
      requires Valid() && pos < last
      modifies this, elems
      ensures Valid()
      ensures r.Ok? <==> old(last) < elems.Length
      ensures r.Err? ==> r.error == RuntimeError
      ensures Contents() == if r.Ok? then old(Contents())[..pos] + [elem] + old(Contents())[pos..]
                            else old(Contents())
      ensures r.Ok? ==> r.value == pos && Contents()[r.value] == elem
      ensures r.Err? ==> elems[..] == old(elems[..])
    {
      if last >= elems.Length {
        return Err(RuntimeError);
      }
      ghost var a0 := elems[..];
      ghost var c0 := Contents();
      assert c0[..pos] == a0[..pos] && c0[pos..] == a0[pos..last];
      var curr := last;
      var next := last - 1;
      while next != pos
        invariant last == old(last) < elems.Length == |a0|
        invariant pos <= next && curr == next + 1 <= last
        invariant forall i :: 0 <= i <= next ==> elems[i] == a0[i]
        invariant forall i :: curr < i <= last ==> elems[i] == a0[i - 1]
        decreases next
      {
        elems[curr], elems[next] := elems[next], elems[curr];
        curr := curr - 1;
        next := next - 1;
      }
      elems[curr], elems[next] := elems[next], elems[curr];
      elems[next] := elem;
      last := last + 1;
      InsertedShape(a0, elems[..], pos, last - 1, elem);
      assert Contents() == c0[..pos] + [elem] + c0[pos..];
      r := Ok(next);
    }

    /** `erase(pos)`: walks the element at `pos` up to the last slot with
        `iter_swap`, each swap moving one later element down by one, then
        `pop_back()`. This is the walk without the closing swap with the
        `end()` slot (see `EraseAsWritten`). Returns an iterator to `pos`,
        which now names the element that followed the erased one, or `end()`. */
    method Erase(pos: nat) returns (it: nat)
      requires Valid() && pos < last
      modifies this, elems
      ensures Valid()
      ensures Contents() == old(Contents())[..pos] + old(Contents())[pos + 1..]
      ensures it == pos <= |Contents()|
      ensures it < |Contents()| ==> Contents()[it] == old(Contents())[pos + 1]
    {
      ghost var a0 := elems[..];
      var target := pos;
      it := target;
      var next := pos + 1;
      while next != last
        invariant last == old(last) <= elems.Length == |a0|
        invariant pos <= target && next == target + 1 <= last
        invariant forall i :: 0 <= i < pos ==> elems[i] == a0[i]
        invariant forall i :: pos <= i < target ==> elems[i] == a0[i + 1]
        invariant elems[target] == a0[pos]
        invariant forall i :: next <= i < |a0| ==> elems[i] == a0[i]
        decreases last - next
      {
        elems[target], elems[next] := elems[next], elems[target];
        target := target + 1;
        next := next + 1;
      }
      PopBack();
      ErasedShape(a0, elems[..], pos, last);
    }

    /** `operator==`: false on different sizes; otherwise compares element by
        element and stops at the first difference. */
    method Equal(rhs: BoundedVector<T>) returns (isEqual: bool)
      requires Valid() && rhs.Valid()
      ensures isEqual <==> Contents() == rhs.Contents()
    {
      isEqual := true;
      if last == rhs.last {
        var i := 0;
        while i != last && i != rhs.last
          invariant 0 <= i <= last
          invariant isEqual
          invariant elems[..i] == rhs.elems[..i]
          decreases last - i
        {
          if elems[i] != rhs.elems[i] {
            isEqual := false;
            assert Contents()[i] != rhs.Contents()[i];
            break;
          }
          i := i + 1;
        }
      } else {
        isEqual := false;
      }
    }

    /** `operator!=`: the negation of `operator==`. */
    method NotEqual(rhs: BoundedVector<T>) returns (r: bool)
      requires Valid() && rhs.Valid()
      ensures r <==> Contents() != rhs.Contents()
    {
      var eq := Equal(rhs);
      r := !eq;
    }
  }

  /** `at(pos)` as written: the bound test is `pos > size()`, so it throws
      only past the end slot and returns the slot at `pos` otherwise. The
      result is the index of the slot read, or out_of_range. */
  function AtSlotAsWritten(size: nat, pos: nat): (r: Result<nat>)
    ensures r.Ok? ==> r.value == pos
  {
    if pos > size then Err(OutOfRange) else Ok(pos)
  }

  /** As written, `at(size())` reads the slot at the end cursor, which holds
      no element; on a full vector that slot is one past the array. */
  lemma AtAsWrittenReadsEnd(size: nat, capacity: nat)
    requires size <= capacity
    ensures AtSlotAsWritten(size, size) == Ok(size)
    ensures size == capacity ==> AtSlotAsWritten(size, size).value >= capacity
  {
  }

  /** Slots of the storage as seen by `erase` as written: `Some(x)` holds a
      live element, `None` raw storage. */
  function SwapSlots<T>(s: seq<Option<T>>, i: nat, j: nat): (r: seq<Option<T>>)
    requires i < |s| && j < |s|
    ensures |r| == |s| && r[i] == s[j] && r[j] == s[i]
    ensures forall k :: 0 <= k < |s| && k != i && k != j ==> r[k] == s[k]
  {
    s[i := s[j]][j := s[i]]
  }

  /** The `iter_swap` walk of `erase`: the slot at `m` is swapped forward
      until it sits at `n - 1`. */
  function WalkUp<T>(s: seq<Option<T>>, m: nat, n: nat): (r: seq<Option<T>>)
    requires m < n <= |s|
    ensures |r| == |s|
    decreases n - m
  {
    if m + 1 == n then s else WalkUp(SwapSlots(s, m, m + 1), m + 1, n)
  }

  /** What the walk does: the slot at m ends at n - 1, the slots after it
      move down by one, and nothing else changes. */
  lemma {:induction false} WalkUpMoves<T>(s: seq<Option<T>>, m: nat, n: nat)
    requires m < n <= |s|
    ensures WalkUp(s, m, n)[n - 1] == s[m]
    ensures forall k :: m <= k < n - 1 ==> WalkUp(s, m, n)[k] == s[k + 1]
    ensures forall k :: 0 <= k < |s| && (k < m || k >= n) ==> WalkUp(s, m, n)[k] == s[k]
    decreases n - m
  {
    if m + 1 < n {
      WalkUpMoves(SwapSlots(s, m, m + 1), m + 1, n);
    }
  }

  /** `erase(pos)` as written on a vector of n elements over the slots `s`:
      after the walk it swaps the last element's slot with the `end()` slot,
      then `pop_back` destroys slot n - 1. None when the swap needs a slot
      beyond the array. */
  function EraseAsWritten<T>(s: seq<Option<T>>, n: nat, pos: nat): (r: Option<seq<Option<T>>>)
    requires pos < n <= |s|
    ensures r.None? <==> n == |s|
  {
    var walked := WalkUp(s, pos, n);
    if n < |s| then Some(SwapSlots(walked, n - 1, n)[n - 1 := None]) else None
  }

  /** On a full vector the closing swap of `erase` as written reaches one
      slot past the array. */
  lemma EraseAsWrittenFullOverruns<T>(s: seq<Option<T>>, pos: nat)
    requires pos < |s|
    ensures EraseAsWritten(s, |s|, pos) == None
  {
  }

  /** Below capacity, `erase` as written leaves the erased element alive in
      the `end()` slot past the new end, and `pop_back` destroys the raw slot
      that was swapped in from `end()`. */
  lemma EraseAsWrittenLeaks<T>(s: seq<Option<T>>, n: nat, pos: nat)
    requires pos < n < |s|
    requires s[n].None?
    ensures var r := EraseAsWritten(s, n, pos);
      r.Some? && r.value[n] == s[pos] && SwapSlots(WalkUp(s, pos, n), n - 1, n)[n - 1].None?
  {
    WalkUpMoves(s, pos, n);
  }

  /** The slots after `emplace`'s walk: the elements before `pos` in place,
      the new element at `pos`, the rest one slot up. */
  lemma InsertedShape<T>(a0: seq<T>, e: seq<T>, pos: nat, last: nat, elem: T)
    requires pos <= last < |a0| == |e|
    requires forall i :: 0 <= i < pos ==> e[i] == a0[i]
    requires e[pos] == elem
    requires forall i :: pos < i <= last ==> e[i] == a0[i - 1]
    ensures e[..last + 1] == a0[..pos] + [elem] + a0[pos..last]
  {
    var expected := a0[..pos] + [elem] + a0[pos..last];
    assert forall i :: 0 <= i <= last ==> e[i] == expected[i];
  }

  /** The slots after `erase`'s walk: the elements before `pos` in place,
      the ones after it one slot down. */
  lemma ErasedShape<T>(a0: seq<T>, e: seq<T>, pos: nat, last: nat)
    requires pos <= last < |a0| == |e|
    requires forall i :: 0 <= i < pos ==> e[i] == a0[i]
    requires forall i :: pos <= i < last ==> e[i] == a0[i + 1]
    ensures e[..last] == a0[..pos] + a0[pos + 1..last + 1]
  {
    var expected := a0[..pos] + a0[pos + 1..last + 1];
    assert forall i :: 0 <= i < last ==> e[i] == expected[i];
  }
}
