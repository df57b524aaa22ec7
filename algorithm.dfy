/** `binary_find`: the first iterator of `std::equal_range`, that is, the
    lower bound of the value in a range partitioned by it. Iterators are
    indices into the sequence; `|s|` is `end`. */
module Algorithms {

  /** The precondition of `equal_range(begin, end, value, comp)`: the
      elements `e` with `comp(e, value)` all come before those without. */
  ghost predicate PartitionedBy<T>(s: seq<T>, value: T, comp: (T, T) -> bool)
  {
    forall i, j :: 0 <= i < j < |s| && comp(s[j], value) ==> comp(s[i], value)
  }

  /** Sorted in ascending order by `<`. */
  ghost predicate Sorted(s: seq<int>)
  {
    forall i, j :: 0 <= i < j < |s| ==> s[i] <= s[j]
  }

  /** The precondition of `equal_range(begin, end, value)`: the range is
      partitioned by `e < value` and by `!(value < e)`. */
  ghost predicate EqualRangeReady(s: seq<int>, value: int)
  {
    && (forall i, j :: 0 <= i < j < |s| && s[j] < value ==> s[i] < value)
    && (forall i, j :: 0 <= i < j < |s| && !(value < s[j]) ==> !(value < s[i]))
  }

  /** A sorted range is ready for every value, but a range can be ready for
      a value without being sorted. */
  lemma SortedIsReady(s: seq<int>, value: int)
    ensures Sorted(s) ==> EqualRangeReady(s, value)
    ensures EqualRangeReady([0, 2, 1, 5, 4], 3) && !Sorted([0, 2, 1, 5, 4])
  {
    var u := [0, 2, 1, 5, 4];
    assert u[1] > u[2];
  }

  /** The bisection of `equal_range` over the window `[lo, hi)`: everything
      left of `lo` is already known to compare less, nothing from `hi` on
      does. */
  function LowerBound<T>(s: seq<T>, value: T, comp: (T, T) -> bool, lo: nat, hi: nat): (r: nat)
    requires lo <= hi <= |s|
    requires PartitionedBy(s, value, comp)
    requires forall i :: 0 <= i < lo ==> comp(s[i], value)
    requires forall i :: hi <= i < |s| ==> !comp(s[i], value)
    ensures lo <= r <= hi
    ensures forall i :: 0 <= i < r ==> comp(s[i], value)
    ensures forall i :: r <= i < |s| ==> !comp(s[i], value)
    decreases hi - lo
  {
    if lo == hi then lo
    else
      var mid := lo + (hi - lo) / 2;
      if comp(s[mid], value) then LowerBound(s, value, comp, mid + 1, hi)
      else LowerBound(s, value, comp, lo, mid)
  }

  /** `binary_find(begin, end, value, comp)`: the partition point. Every
      element before it compares less than `value`, none from it on does. */
  function BinaryFindBy<T>(s: seq<T>, value: T, comp: (T, T) -> bool): (r: nat)
    requires PartitionedBy(s, value, comp)
    ensures r <= |s|
    ensures forall i :: 0 <= i < r ==> comp(s[i], value)
    ensures forall i :: r <= i < |s| ==> !comp(s[i], value)
  {
    LowerBound(s, value, comp, 0, |s|)
  }

  function Less(a: int, b: int): bool
  {
    a < b
  }

  /** `binary_find(begin, end, value)`: `comp` is `<`. */
  function BinaryFind(s: seq<int>, value: int): (r: nat)
    requires EqualRangeReady(s, value)
    ensures r <= |s|
    ensures forall i :: 0 <= i < r ==> s[i] < value
    ensures forall i :: r <= i < |s| ==> s[i] >= value
  {
    assert PartitionedBy(s, value, Less);
    BinaryFindBy(s, value, Less)
  }

  /** The two properties of the result pin it down: there is only one
      partition point. */
  lemma PartitionPointUnique<T>(s: seq<T>, value: T, comp: (T, T) -> bool, p: nat)
    requires PartitionedBy(s, value, comp)
    requires p <= |s|
    requires forall i :: 0 <= i < p ==> comp(s[i], value)
    requires forall i :: p <= i < |s| ==> !comp(s[i], value)
    ensures BinaryFindBy(s, value, comp) == p
  {
    var r := BinaryFindBy(s, value, comp);
    assert r < |s| ==> (comp(s[r], value) <==> r < p);
    assert p < |s| ==> (comp(s[p], value) <==> p < r);
  }

  /** The result is `end` exactly when every element is less than `value`. */
  lemma BinaryFindEnd(s: seq<int>, value: int)
    requires EqualRangeReady(s, value)
    ensures BinaryFind(s, value) == |s| <==> forall i :: 0 <= i < |s| ==> s[i] < value
  {
    var r := BinaryFind(s, value);
    if r < |s| {
      assert s[r] >= value;
    }
  }

  /** The result is the first occurrence when the value is present, and an
      occurrence exactly when the value is present: the caller has to
      dereference and compare. */
  lemma BinaryFindMembership(s: seq<int>, value: int)
    requires EqualRangeReady(s, value)
    ensures var r := BinaryFind(s, value);
      (r < |s| && s[r] == value) <==> value in s
    ensures var r := BinaryFind(s, value);
      value in s ==> r < |s| && s[r] == value && value !in s[..r]
  {
    var r := BinaryFind(s, value);
    if value in s {
      var k :| 0 <= k < |s| && s[k] == value;
      assert r <= k;
      assert !(value < s[r]);
      assert forall i :: 0 <= i < r ==> s[..r][i] < value;
    }
  }

  /** It is not a membership test: on an absent value the result can still
      point at an element, which is then greater. */
  lemma BinaryFindAbsent()
    ensures BinaryFind([1, 3], 2) == 1
  {
    var s := [1, 3];
    PartitionPointUnique(s, 2, Less, 1);
  }
}
