/** `ntl::find_if` and `ntl::find`: a search that returns a found-flag beside
    the iterator, so that callers need not compare with `end` themselves.
    A range is a window `[begin, end)` of a sequence, iterators are indices
    into it. */
module Finding {

  /** `std::find_if(begin, end, cond)`: the first position in the window
      whose element satisfies `cond`, or `end`. */
  function FirstWhere<T>(s: seq<T>, begin: nat, end: nat, cond: T -> bool): (itr: nat)
    requires begin <= end <= |s|
    ensures begin <= itr <= end
    ensures forall i :: begin <= i < itr ==> !cond(s[i])
    ensures itr < end ==> cond(s[itr])
    decreases end - begin
  {
    if begin == end then end
    else if cond(s[begin]) then begin
    else FirstWhere(s, begin + 1, end, cond)
  }

  /** `find_if(begin, end, cond)`: `(itr != end, itr)`. The flag is set
      exactly when some element of the window satisfies `cond`; then the
      iterator is the first such position, otherwise it is `end`. */
  function FindIf<T>(s: seq<T>, begin: nat, end: nat, cond: T -> bool): (r: (bool, nat))
    requires begin <= end <= |s|
    ensures r.0 <==> r.1 != end
    ensures r.0 <==> exists i :: begin <= i < end && cond(s[i])
    ensures r.0 ==> begin <= r.1 < end && cond(s[r.1])
    ensures forall i :: begin <= i < r.1 ==> !cond(s[i])
    ensures !r.0 ==> r.1 == end
  {
    var itr := FirstWhere(s, begin, end, cond);
    (itr != end, itr)
  }

  /** `find(begin, end, elem)`: `find_if` with equality to `elem`. */
  function Find<T(==)>(s: seq<T>, begin: nat, end: nat, elem: T): (r: (bool, nat))
    requires begin <= end <= |s|
    ensures r.0 <==> elem in s[begin..end]
    ensures r.0 ==> begin <= r.1 < end && s[r.1] == elem && elem !in s[begin..r.1]
    ensures !r.0 ==> r.1 == end
  {
    var r := FindIf(s, begin, end, x => x == elem);
    assert forall i :: begin <= i < end ==> s[begin..end][i - begin] == s[i];
    assert r.0 ==> forall i :: 0 <= i < r.1 - begin ==> s[begin..r.1][i] == s[begin + i];
    r
  }

  /** Any position with the two defining properties is the one `find_if`
      returns. */
  lemma FindIfUnique<T>(s: seq<T>, begin: nat, end: nat, cond: T -> bool, p: nat)
    requires begin <= p <= end <= |s|
    requires forall i :: begin <= i < p ==> !cond(s[i])
    requires p < end ==> cond(s[p])
    ensures FindIf(s, begin, end, cond).1 == p
  {
    var q := FindIf(s, begin, end, cond).1;
    assert q < end ==> (cond(s[q]) <==> q <= p) && q >= begin;
    assert p < end ==> (cond(s[p]) <==> p <= q);
  }

  /** An iterator of a map-like container: at a stored key, or `end()`. */
  datatype MapIterator<K> = At(key: K) | MapEnd

  /** `find(container, key)` for a map-like container (both the const and
      the non-const overload): the flag is `container.find(key) != end()`,
      which holds exactly when the key is stored. */
  function FindKey<K, V>(container: map<K, V>, key: K): (r: (bool, MapIterator<K>))
    ensures r.0 <==> key in container
    ensures r.0 <==> r.1 != MapEnd
    ensures r.0 ==> r.1 == At(key)
  {
    var itr := if key in container then At(key) else MapEnd;
    (itr != MapEnd, itr)
  }

  /** `find(container, needle)` for any other container: the range `find`
      over the whole container. */
  function FindIn<T(==)>(container: seq<T>, needle: T): (r: (bool, nat))
    ensures r.0 <==> needle in container
    ensures r.0 ==> r.1 < |container| && container[r.1] == needle && needle !in container[..r.1]
    ensures !r.0 ==> r.1 == |container|
  {
    assert container[0..|container|] == container;
    Find(container, 0, |container|, needle)
  }
}
