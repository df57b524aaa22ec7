/** `bounded_queue`: a ring buffer over a fixed array, with a head index
    (the oldest element), a tail index (the next free slot) and a flag that
    tells a full queue from an empty one when the two indices meet. */
module BoundedQueues {
  import opened Wrappers
  import Bits

  class BoundedQueue<T(0)> {
    /** `m_Elems`: `MaxElemCt` slots. */
    const elems: array<T>
    /** `m_HeadElemIdx`, `m_TailElemIdx`, `m_IsFull`. */
    var head: nat
    var tail: nat
    var isFull: bool

    ghost predicate Valid()
      reads this
    {
      elems.Length > 0 && head < elems.Length && tail < elems.Length
      && (isFull ==> head == tail)
    }

    /** The queued elements, oldest first: the slots from head up to tail,
        going round the end of the array when tail has wrapped. */
    ghost function Contents(): seq<T>
      reads this, elems
      requires Valid()
    {
      if head < tail then elems[head..tail]
      else if head > tail || isFull then elems[head..] + elems[..tail]
      else []
    }

    /** `capacity()`. */
    function Capacity(): nat
      reads this
    {
      elems.Length
    }

    constructor (capacity: nat)
      requires capacity > 0
      ensures Valid() && fresh(elems) && Capacity() == capacity
      ensures Contents() == []
    {
      elems := new T[capacity];
      head, tail, isFull := 0, 0, false;
    }

    /** `empty()`: head and tail meet and the full flag is clear. */
    function Empty(): (r: bool)
      reads this, elems
      requires Valid()
      ensures r <==> Contents() == []
    {
      tail == head && !isFull
    }

    /** `is_full()`. */
    function IsFull(): (r: bool)
      reads this, elems
      requires Valid()
      ensures r <==> |Contents()| == Capacity()
    {
      isFull
    }

    /** `size()`, computed from the two indices. */
    function Size(): (r: nat)
      reads this, elems
      requires Valid()
      ensures r == |Contents()|
      ensures r <= Capacity()
      ensures r == Capacity() <==> IsFull()
    {
      if head < tail then tail - head
      else if head > tail then tail + (elems.Length - head)
      else if Empty() then 0 else Capacity()
    }

    /** `front()`: the oldest element. Reading it from an empty queue reads
        a slot holding no element. */
    function Front(): (r: T)
      reads this, elems
      requires Valid() && !Empty()
      ensures r == Contents()[0]
    {
      elems[head]
    }

    /** `increment_tail()`: advance the tail, wrap to 0 at the end, and set
        the flag when the tail lands on the head. */
    method IncrementTail()
      requires Valid() && !isFull
      modifies this`tail, this`isFull
      ensures tail == Next(old(tail), elems.Length)
      ensures isFull == (tail == head)
      ensures head < elems.Length && tail < elems.Length
    {
      tail := tail + 1;
      if tail == elems.Length {
        tail := 0;
      }
      if tail == head {
        isFull := true;
      }
    }

    /** `increment_head()`: advance the head, wrap to 0 at the end, and clear
        the flag. */
    method IncrementHead()
      requires Valid()
      modifies this`head, this`isFull
      ensures head == Next(old(head), elems.Length)
      ensures !isFull
      ensures head < elems.Length && tail < elems.Length
    {
      head := head + 1;
      if head == elems.Length {
        head := 0;
      }
      isFull := false;
    }

    /** `push(newVal)`: throws on a full queue, changing nothing; otherwise
        appends at the tail. */
    method Push(newVal: T) returns (o: Outcome)
      requires Valid()
      modifies this, elems
      ensures Valid()
      ensures o == (if old(isFull) then Fail(RuntimeError) else Pass)
      ensures o.Fail? ==> head == old(head) && tail == old(tail) && isFull == old(isFull)
                          && elems[..] == old(elems[..])
      ensures Contents() == if o.Pass? then old(Contents()) + [newVal] else old(Contents())
      ensures o.Pass? ==> isFull == (tail == head)
    {
      if isFull {
        return Fail(RuntimeError);
      }
      elems[tail] := newVal;
      ghost var written := elems[..];
      IncrementTail();
      AppendAtTail(old(elems[..]), written, head, old(tail), tail, old(isFull), newVal);
      o := Pass;
    }

    /** `emplace(args...)`: like `push`, with the element built in place from
        its constructor arguments; `newVal` stands for the built element. */
    method Emplace(newVal: T) returns (o: Outcome)
      requires Valid()
      modifies this, elems
      ensures Valid()
      ensures o == (if old(isFull) then Fail(RuntimeError) else Pass)
      ensures o.Fail? ==> head == old(head) && tail == old(tail) && isFull == old(isFull)
                          && elems[..] == old(elems[..])
      ensures Contents() == if o.Pass? then old(Contents()) + [newVal] else old(Contents())
      ensures o.Pass? ==> isFull == (tail == head)
    {
      if isFull {
        return Fail(RuntimeError);
      }
      elems[tail] := newVal;
      ghost var written := elems[..];
      IncrementTail();
      AppendAtTail(old(elems[..]), written, head, old(tail), tail, old(isFull), newVal);
      o := Pass;
    }

    /** `pop()`: a no-op on an empty queue; otherwise removes the oldest
        element and clears the full flag. */
    method Pop()
      requires Valid()
      modifies this`head, this`isFull
      ensures Valid()
      ensures Contents() == if old(Empty()) then old(Contents()) else old(Contents())[1..]
      ensures old(Empty()) ==> head == old(head) && isFull == old(isFull)
      ensures !old(Empty()) ==> !isFull
    {
      if !Empty() {
        IncrementHead();
        RemoveAtHead(elems[..], old(head), head, tail, old(isFull));
      }
    }

    /** `~bounded_queue()`: pops until the queue is empty. */
    method Drain()
      requires Valid()
      modifies this`head, this`isFull
      ensures Valid() && Contents() == []
    {
      while !Empty()
        invariant Valid()
        decreases |Contents()|
      {
        Pop();
      }
    }
  }

  /** The index after i in a ring of n slots: one more, or 0 at the end. */
  function Next(i: nat, n: nat): (r: nat)
    requires i < n
    ensures r < n
    ensures r == (i + 1) % n
  {
    NextIsMod(i, n);
    if i + 1 == n then 0 else i + 1
  }

  lemma NextIsMod(i: nat, n: nat)
    requires i < n
    ensures (i + 1) % n == if i + 1 == n then 0 else i + 1
  {
    if i + 1 == n {
      Bits.ModUnique(i + 1, n, 1, 0);
    } else {
      Bits.ModUnique(i + 1, n, 0, i + 1);
    }
  }

  /** The contents named by a head index, a tail index and a full flag over
      the slots `s`; the same definition as `BoundedQueue.Contents`. */
  ghost function Window<T>(s: seq<T>, head: nat, tail: nat, full: bool): seq<T>
    requires head < |s| && tail < |s|
  {
    if head < tail then s[head..tail]
    else if head > tail || full then s[head..] + s[..tail]
    else []
  }

  /** Writing the tail slot and advancing the tail appends one element. */
  lemma AppendAtTail<T>(s: seq<T>, s': seq<T>, head: nat, tail: nat, tail': nat, full: bool, x: T)
    requires |s| == |s'| && head < |s| && tail < |s| && tail' < |s|
    requires full ==> head == tail
    requires !full
    requires s' == s[tail := x]
    requires tail' == Next(tail, |s|)
    ensures Window(s', head, tail', tail' == head) == Window(s, head, tail, full) + [x]
  {
    var n := |s|;
    if tail + 1 < n {
      assert tail' == tail + 1;
      if head <= tail {
        assert s'[head..tail'] == s[head..tail] + [x];
      } else {
        assert s'[head..] == s[head..];
        assert s'[..tail'] == s[..tail] + [x];
      }
    } else {
      assert tail' == 0;
      if head <= tail {
        if head == 0 {
          assert s'[head..] + s'[..0] == s[head..tail] + [x];
        } else {
          assert s'[head..] == s[head..tail] + [x];
        }
      } else {
        assert false;
      }
    }
  }

  /** Advancing the head drops the oldest element. */
  lemma RemoveAtHead<T>(s: seq<T>, head: nat, head': nat, tail: nat, full: bool)
    requires head < |s| && tail < |s| && head' < |s|
    requires full ==> head == tail
    requires Window(s, head, tail, full) != []
    requires head' == Next(head, |s|)
    ensures Window(s, head', tail, false) == Window(s, head, tail, full)[1..]
  {
    var n := |s|;
    if head < tail {
      assert head' == head + 1;
    } else if head + 1 < n {
      assert head' == head + 1;
      assert (s[head..] + s[..tail])[1..] == s[head'..] + s[..tail];
    } else {
      assert head' == 0;
      assert (s[head..] + s[..tail])[1..] == s[..tail];
      if tail == 0 {
        assert s[..tail] == [];
      } else {
        assert s[0..tail] == s[..tail];
      }
    }
  }
}
