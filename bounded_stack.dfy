/** `bounded_stack`: a fixed array and a cursor (`m_StackItr`) at the first
    free slot; the elements are the slots below the cursor, bottom first. */
module BoundedStacks {
  import opened Wrappers

  class BoundedStack<T(0)> {
    /** `m_Elems`. */
    const elems: array<T>
    /** `m_StackItr`, as the index it points at. */
    var top: nat

    ghost predicate Valid()
      reads this
    {
      top <= elems.Length
    }

    /** The stacked elements, the most recently pushed last. */
    ghost function Contents(): seq<T>
      reads this, elems
      requires Valid()
    {
      elems[..top]
    }

    /** `bounded_stack()`: value-initialised slots, cursor at the bottom. */
    constructor (capacity: nat)
      ensures Valid() && fresh(elems) && elems.Length == capacity
      ensures Contents() == []
    {
      elems := new T[capacity];
      top := 0;
    }

    /** `bounded_stack(cont)`: takes a copy of the container's slots, but the
        cursor still starts at the bottom, so the stack is empty. */
    constructor FromContainer(cont: seq<T>)
      ensures Valid() && fresh(elems) && elems[..] == cont
      ensures Contents() == []
    {
      elems := new T[|cont|](i requires 0 <= i < |cont| => cont[i]);
      top := 0;
    }

    /** `capacity()`: the container's `max_size()`. */
    function Capacity(): nat
      reads this
    {
      elems.Length
    }

    /** `size()`: the distance from the bottom to the cursor. */
    function Size(): (r: nat)
      reads this, elems
      requires Valid()
      ensures r == |Contents()| && r <= Capacity()
    {
      top
    }

    /** `empty()`: the cursor is at the bottom. */
    function Empty(): (r: bool)
      reads this, elems
      requires Valid()
      ensures r <==> Size() == 0
      ensures r <==> Contents() == []
    {
      top == 0
    }

    /** `is_full()`: the cursor is at the container's end. */
    function IsFull(): (r: bool)
      reads this, elems
      requires Valid()
      ensures r <==> Size() == Capacity()
    {
      top == elems.Length
    }

    /** `push(newVal)`: on a full stack throws runtime_error and changes
        nothing; otherwise builds the value at the cursor and advances it. */
    method Push(newVal: T) returns (o: Outcome)
      requires Valid()
      modifies this, elems
      ensures Valid()
      ensures o == (if old(IsFull()) then Fail(RuntimeError) else Pass)
      ensures Contents() == if o.Pass? then old(Contents()) + [newVal] else old(Contents())
      ensures o.Fail? ==> top == old(top) && elems[..] == old(elems[..])
    {
      if top == elems.Length {
        return Fail(RuntimeError);
      }
      elems[top] := newVal;
      top := top + 1;
      o := Pass;
    }

    /** `emplace(args...)`: as `push`, with the value built in place from its
        constructor arguments; `newVal` stands for the built value. */
    method Emplace(newVal: T) returns (o: Outcome)
      requires Valid()
      modifies this, elems
      ensures Valid()
      ensures o == (if old(IsFull()) then Fail(RuntimeError) else Pass)
      ensures Contents() == if o.Pass? then old(Contents()) + [newVal] else old(Contents())
      ensures o.Fail? ==> top == old(top) && elems[..] == old(elems[..])
    {
      if top == elems.Length {
        return Fail(RuntimeError);
      }
      elems[top] := newVal;
      top := top + 1;
      o := Pass;
    }

    /** `pop()`: a no-op on an empty stack; otherwise steps the cursor down,
        dropping the most recently pushed element. */
    method Pop()
      requires Valid()
      modifies this`top
      ensures Valid()
      ensures old(Empty()) ==> top == old(top)
      ensures !old(Empty()) ==> Contents() == old(Contents())[..old(top) - 1]
    {
      if top != 0 {
        top := top - 1;
      }
    }
  }
}
