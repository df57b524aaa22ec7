/** `iterator_utils.h`: `select`, a filtering copy through an output
    iterator, and `find_and_execute_fcn`, a lookup followed by a call on the
    found iterator. */
module IteratorUtils {
  import Finding

  /** The elements of `s` that satisfy `func`, in their order in `s`. */
  function Filter<T>(s: seq<T>, func: T -> bool): (r: seq<T>)
    ensures |r| <= |s|
    ensures forall i :: 0 <= i < |r| ==> func(r[i])
  {
    if s == [] then []
    else Filter(s[..|s| - 1], func) + (if func(s[|s| - 1]) then [s[|s| - 1]] else [])
  }

  /** Filtering keeps exactly the satisfying elements: an element is in the
      result iff it is in the input and satisfies `func`. */
  lemma {:induction false} FilterMembers<T>(s: seq<T>, func: T -> bool, x: T)
    ensures x in Filter(s, func) <==> x in s && func(x)
  {
    if s != [] {
      var init := s[..|s| - 1];
      FilterMembers(init, func, x);
      assert s == init + [s[|s| - 1]];
    }
  }

  /** Filtering a concatenation filters each part: the result keeps the
      order of the input. */
  lemma {:induction false} FilterAppend<T>(a: seq<T>, b: seq<T>, func: T -> bool)
    ensures Filter(a + b, func) == Filter(a, func) + Filter(b, func)
    decreases |b|
  {
    if b == [] {
      assert a + b == a;
    } else {
      var init := b[..|b| - 1];
      assert (a + b)[..|a + b| - 1] == a + init;
      FilterAppend(a, init, func);
    }
  }

  /** Every element is kept when every element satisfies `func`, and none
      when none does. */
  lemma {:induction false} FilterAllOrNone<T>(s: seq<T>, func: T -> bool)
    ensures (forall i :: 0 <= i < |s| ==> func(s[i])) ==> Filter(s, func) == s
    ensures (forall i :: 0 <= i < |s| ==> !func(s[i])) ==> Filter(s, func) == []
  {
    if s != [] {
      FilterAllOrNone(s[..|s| - 1], func);
      assert s == s[..|s| - 1] + [s[|s| - 1]];
    }
  }

  /** One more input element adds itself to the filtered prefix exactly
      when it satisfies `func`. */
  lemma FilterStep<T>(s: seq<T>, k: nat, func: T -> bool)
    requires k < |s|
    ensures Filter(s[..k + 1], func) == Filter(s[..k], func) + (if func(s[k]) then [s[k]] else [])
  {
    assert s[..k + 1][..k] == s[..k];
  }

  /** A prefix of the input never yields more than the whole input. */
  lemma {:induction false} FilterPrefixLength<T>(s: seq<T>, k: nat, func: T -> bool)
    requires k <= |s|
    ensures |Filter(s[..k], func)| <= |Filter(s, func)|
    decreases |s| - k
  {
    if k < |s| {
      FilterStep(s, k, func);
      FilterPrefixLength(s, k + 1, func);
    } else {
      assert s[..k] == s;
    }
  }

  /** `select(begin, end, insertItr, func)`: the loop advances over
      `src[begin..end]` and writes each element satisfying `func` through
      the output iterator, which starts at `dst[insertAt]` and moves on by
      one per write. The input is read only; the output must have room for
      every write and must not be the input array. */
  method Select<T>(src: array<T>, begin: nat, end: nat, dst: array<T>, insertAt: nat, func: T -> bool)
    requires begin <= end <= src.Length
    requires src != dst
    requires insertAt + |Filter(src[begin..end], func)| <= dst.Length
    modifies dst
    ensures var written := Filter(src[begin..end], func);
      dst[..] == old(dst[..insertAt]) + written + old(dst[insertAt + |written|..])
  {
    ghost var d0 := dst[..];
    ghost var input := src[begin..end];
    var cur := begin;
    var out := insertAt;
    while cur != end
      invariant begin <= cur <= end
      invariant out == insertAt + |Filter(input[..cur - begin], func)| <= dst.Length
      invariant forall i :: 0 <= i < insertAt ==> dst[i] == d0[i]
      invariant forall i :: out <= i < dst.Length ==> dst[i] == d0[i]
      invariant forall i :: insertAt <= i < out ==> dst[i] == Filter(input[..cur - begin], func)[i - insertAt]
      decreases end - cur
    {
      ghost var k := cur - begin;
      assert input[k] == src[cur];
      FilterStep(input, k, func);
      FilterPrefixLength(input, k + 1, func);
      if func(src[cur]) {
        dst[out] := src[cur];
        out := out + 1;
      }
      cur := cur + 1;
    }
    assert input[..end - begin] == input;
    WrittenShape(d0, dst[..], insertAt, Filter(input, func));
  }

  /** An array that agrees with `d0` outside `[insertAt, insertAt + |w|)`
      and holds `w` inside it. */
  lemma WrittenShape<T>(d0: seq<T>, d: seq<T>, insertAt: nat, w: seq<T>)
    requires |d| == |d0| && insertAt + |w| <= |d|
    requires forall i :: 0 <= i < insertAt ==> d[i] == d0[i]
    requires forall i :: insertAt + |w| <= i < |d| ==> d[i] == d0[i]
    requires forall i :: insertAt <= i < insertAt + |w| ==> d[i] == w[i - insertAt]
    ensures d == d0[..insertAt] + w + d0[insertAt + |w|..]
  {
    var expected := d0[..insertAt] + w + d0[insertAt + |w|..];
    assert forall i :: 0 <= i < |d| ==> d[i] == expected[i];
  }

  /** `find_and_execute_fcn(map, elem, func)`: the iterators `func` is
      called with, in order. It is called once, with the iterator at `elem`,
      when the key is stored, and not at all otherwise. */
  function FindAndExecuteInMap<K, V>(m: map<K, V>, elem: K): (calls: seq<Finding.MapIterator<K>>)
    ensures |calls| <= 1
    ensures |calls| == 1 <==> elem in m
    ensures elem in m ==> calls == [Finding.At(elem)]
  {
    var (found, iter) := Finding.FindKey(m, elem);
    if found then [iter] else []
  }

  /** `find_and_execute_fcn(begin, end, keyFunc, func)`: the positions
      `func` is called with. It is called once, on the first element that
      satisfies `keyFunc`, or not at all when none does. */
  function FindAndExecuteInRange<T>(s: seq<T>, begin: nat, end: nat, keyFunc: T -> bool): (calls: seq<nat>)
    requires begin <= end <= |s|
    ensures |calls| <= 1
    ensures calls == [] <==> forall i :: begin <= i < end ==> !keyFunc(s[i])
    ensures calls != [] ==> begin <= calls[0] < end && keyFunc(s[calls[0]])
    ensures calls != [] ==> forall i :: begin <= i < calls[0] ==> !keyFunc(s[i])
  {
    var (found, iter) := Finding.FindIf(s, begin, end, keyFunc);
    if found then [iter] else []
  }
}
