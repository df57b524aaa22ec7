/** `basic_string_view<char>`: a pointer and a length. The pointer is
    modelled as the character array it points into (`buf`) and an offset
    into it (`ptr`); the view's characters are `buf[ptr..ptr + size]`. */
module StringViews {
  import opened Wrappers

  /** `npos`: `size_type(-1)` for a 64-bit `size_t`. */
  const NPOS: nat := 0xFFFF_FFFF_FFFF_FFFF

  datatype View = View(buf: seq<char>, ptr: nat, size: nat)

  /** The view lies inside the array its pointer points into, and that
      array fits in the address space. */
  predicate Valid(v: View)
  {
    v.ptr + v.size <= |v.buf| <= NPOS
  }

  /** The characters the view shows. */
  function Chars(v: View): seq<char>
    requires Valid(v)
  {
    v.buf[v.ptr..v.ptr + v.size]
  }

  function Min(a: nat, b: nat): nat
  {
    if a <= b then a else b
  }

  /** `std::char_traits<char>::length(s)`: the number of characters before
      the first '\0' at or after offset p. */
  function CLength(buf: seq<char>, p: nat): (r: nat)
    requires p <= |buf| && '\0' in buf[p..]
    ensures p + r < |buf| && buf[p + r] == '\0'
    ensures forall j :: p <= j < p + r ==> buf[j] != '\0'
    decreases |buf| - p
  {
    if buf[p] == '\0' then 0
    else
      assert buf[p..] == [buf[p]] + buf[p + 1..];
      1 + CLength(buf, p + 1)
  }

  /** `basic_string_view()`: a null pointer and size 0. */
  function Empty(): (v: View)
    ensures Valid(v) && Chars(v) == []
  {
    View([], 0, 0)
  }

  /** `basic_string_view(s, count)`: the caller's pointer must cover
      `count` characters. */
  function FromPointer(buf: seq<char>, p: nat, count: nat): (v: View)
    requires p + count <= |buf| <= NPOS
    ensures Valid(v) && Chars(v) == buf[p..p + count]
  {
    View(buf, p, count)
  }

  /** `basic_string_view(s)`: the characters of the C string at s, without
      its terminator. */
  function FromCString(buf: seq<char>, p: nat): (v: View)
    requires p <= |buf| <= NPOS && '\0' in buf[p..]
    ensures Valid(v) && '\0' !in Chars(v)
    ensures v.ptr + v.size < |buf| && buf[v.ptr + v.size] == '\0'
  {
    View(buf, p, CLength(buf, p))
  }

  /** `size()`. */
  function Size(v: View): (r: nat)
    requires Valid(v)
    ensures r == |Chars(v)|
  {
    v.size
  }

  /** `empty()`: `m_Size == 0`. */
  function IsEmpty(v: View): (r: bool)
    requires Valid(v)
    ensures r <==> Size(v) == 0
    ensures r <==> Chars(v) == []
  {
    v.size == 0
  }

  /** `front()`: `operator[](0)`; on an empty view it reads outside it. */
  function Front(v: View): (r: char)
    requires Valid(v) && v.size > 0
    ensures r == Chars(v)[0]
  {
    v.buf[v.ptr]
  }

  /** `back()`: `operator[](size() - 1)`. */
  function Back(v: View): (r: char)
    requires Valid(v) && v.size > 0
    ensures r == Chars(v)[|Chars(v)| - 1]
  {
    v.buf[v.ptr + v.size - 1]
  }

  /** `at(pos)` as intended: out_of_range past the end, otherwise the
      character at pos. */
  function At(v: View, pos: nat): (r: Result<char>)
    requires Valid(v)
    ensures r.Err? <==> pos >= |Chars(v)|
    ensures r.Err? ==> r.error == OutOfRange
    ensures r.Ok? ==> r.value == Chars(v)[pos]
  {
    if pos >= v.size then Err(OutOfRange) else Ok(v.buf[v.ptr + pos])
  }

  /** `at(pos)` as written: the same bound test, but it returns
      `*(m_Ptr + m_Size)`, the character just past the view, whatever pos
      is; None when that is past the array too. */
  function AtAsWritten(v: View, pos: nat): (r: Result<Option<char>>)
    requires Valid(v)
    ensures r.Err? <==> pos >= v.size
  {
    if pos >= v.size then Err(OutOfRange)
    else if v.ptr + v.size < |v.buf| then Ok(Some(v.buf[v.ptr + v.size]))
    else Ok(None)
  }

  /** On the view of "ab", `at(0)` as written reads past the array instead
      of yielding 'a'; on the first two characters of "abc" it yields 'c'. */
  lemma AtAsWrittenReadsPastView()
    ensures At(View("ab", 0, 2), 0) == Ok('a')
    ensures AtAsWritten(View("ab", 0, 2), 0) == Ok(None)
    ensures AtAsWritten(View("abc", 0, 2), 0) == Ok(Some('c'))
  {
  }

  /** `substr(pos, count)`: out_of_range iff pos > size(); otherwise the
      view of at most count characters from pos on. */
  function Substr(v: View, pos: nat, count: nat): (r: Result<View>)
    requires Valid(v)
    ensures r.Err? <==> pos > |Chars(v)|
    ensures r.Err? ==> r.error == OutOfRange
    ensures r.Ok? ==> (Valid(r.value)
                       && |Chars(r.value)| == Min(count, |Chars(v)| - pos)
                       && Chars(r.value) == Chars(v)[pos..pos + Min(count, |Chars(v)| - pos)])
  {
    if pos > v.size then Err(OutOfRange)
    else
      var m := Min(count, v.size - pos);
      assert v.buf[v.ptr + pos..v.ptr + pos + m] == Chars(v)[pos..pos + m];
      Ok(View(v.buf, v.ptr + pos, m))
  }

  /** Lexicographic order on character sequences, the reference for
      `compare`: the first difference decides, and a proper prefix is
      smaller. */
  predicate LexLess(a: seq<char>, b: seq<char>)
    decreases |a|
  {
    if a == [] then b != []
    else if b == [] then false
    else a[0] < b[0] || (a[0] == b[0] && LexLess(a[1..], b[1..]))
  }

  lemma {:induction false} LexLessIrreflexiveAsym(a: seq<char>, b: seq<char>)
    ensures !(LexLess(a, b) && LexLess(b, a))
    ensures LexLess(a, b) ==> a != b
    decreases |a|
  {
    if a != [] && b != [] {
      LexLessIrreflexiveAsym(a[1..], b[1..]);
    }
  }

  lemma {:induction false} LexLessTotal(a: seq<char>, b: seq<char>)
    requires a != b
    ensures LexLess(a, b) || LexLess(b, a)
    decreases |a|
  {
    if a != [] && b != [] && a[0] == b[0] {
      assert a == [a[0]] + a[1..] && b == [b[0]] + b[1..];
      LexLessTotal(a[1..], b[1..]);
    }
  }

  /** The three-way result of lexicographic order. */
  function CompareChars(a: seq<char>, b: seq<char>): (r: int)
    ensures r == -1 || r == 0 || r == 1
    ensures r == 0 <==> a == b
    ensures r == -1 <==> LexLess(a, b)
    ensures r == 1 <==> LexLess(b, a)
  {
    LexLessIrreflexiveAsym(a, b);
    if a == b then 0
    else
      LexLessTotal(a, b);
      if LexLess(a, b) then -1 else 1
  }

  /** `std::char_traits<char>::compare(p, q, n)`: the sign of the first
      difference among the first n characters, 0 when there is none. */
  function TraitsCompare(a: seq<char>, b: seq<char>, n: nat): (r: int)
    requires n <= |a| && n <= |b|
    decreases n
  {
    if n == 0 then 0
    else if a[0] < b[0] then -1
    else if a[0] > b[0] then 1
    else TraitsCompare(a[1..], b[1..], n - 1)
  }

  /** On the common length, `char_traits::compare` agrees with lexicographic
      order, and a zero result means a common prefix. */
  lemma {:induction false} TraitsCompareLex(a: seq<char>, b: seq<char>, n: nat)
    requires n == Min(|a|, |b|)
    ensures TraitsCompare(a, b, n) < 0 ==> LexLess(a, b)
    ensures TraitsCompare(a, b, n) > 0 ==> LexLess(b, a)
    ensures TraitsCompare(a, b, n) == 0 ==> a[..n] == b[..n]
    decreases n
  {
    if n > 0 && a[0] == b[0] {
      TraitsCompareLex(a[1..], b[1..], n - 1);
      assert a[..n] == [a[0]] + a[1..][..n - 1];
      assert b[..n] == [b[0]] + b[1..][..n - 1];
    }
  }

  /** With equal first n characters, the shorter sequence is the smaller. */
  lemma {:induction false} CommonPrefixLex(a: seq<char>, b: seq<char>, n: nat)
    requires n == Min(|a|, |b|) && a[..n] == b[..n]
    ensures |a| < |b| ==> LexLess(a, b)
    ensures |a| == |b| ==> a == b
    ensures |a| > |b| ==> LexLess(b, a)
    decreases n
  {
    if n > 0 {
      assert a[0] == a[..n][0] && b[0] == b[..n][0];
      assert a[1..][..n - 1] == a[..n][1..] && b[1..][..n - 1] == b[..n][1..];
      CommonPrefixLex(a[1..], b[1..], n - 1);
      if |a| == |b| {
        assert a == [a[0]] + a[1..] && b == [b[0]] + b[1..];
      }
    }
  }

  /** `compare(v)`: `char_traits::compare` on the common length, then the
      lengths decide. (As written the equal-length test reads `size ==
      v.size()`, naming the member function; the intended `size()` is
      modelled.) The result is lexicographic order. */
  function Compare(v: View, w: View): (r: int)
    requires Valid(v) && Valid(w)
    ensures r == CompareChars(Chars(v), Chars(w))
  {
    var rlen := Min(v.size, w.size);
    var cmpRet := TraitsCompare(Chars(v), Chars(w), rlen);
    TraitsCompareLex(Chars(v), Chars(w), rlen);
    LexLessIrreflexiveAsym(Chars(v), Chars(w));
    if cmpRet < 0 then -1
    else if cmpRet == 0 then
      CommonPrefixLex(Chars(v), Chars(w), rlen);
      if v.size < w.size then -1 else if v.size == w.size then 0 else 1
    else 1
  }

  /** `compare(pos1, count1, v)`: `substr(pos1, count1).compare(v)`. */
  function CompareSub(v: View, pos1: nat, count1: nat, w: View): (r: Result<int>)
    requires Valid(v) && Valid(w)
    ensures r.Err? <==> pos1 > |Chars(v)|
    ensures r.Ok? ==> r.value == CompareChars(Chars(v)[pos1..pos1 + Min(count1, |Chars(v)| - pos1)], Chars(w))
  {
    match Substr(v, pos1, count1)
    case Err(e) => Err(e)
    case Ok(s) => Ok(Compare(s, w))
  }

  /** `compare(pos1, count1, v, pos2, count2)`:
      `substr(pos1, count1).compare(v.substr(pos2, count2))`. */
  function CompareSubSub(v: View, pos1: nat, count1: nat, w: View, pos2: nat, count2: nat): (r: Result<int>)
    requires Valid(v) && Valid(w)
    ensures r.Err? <==> pos1 > |Chars(v)| || pos2 > |Chars(w)|
    ensures r.Ok? ==> r.value == CompareChars(Chars(v)[pos1..pos1 + Min(count1, |Chars(v)| - pos1)],
                                             Chars(w)[pos2..pos2 + Min(count2, |Chars(w)| - pos2)])
  {
    match Substr(v, pos1, count1)
    case Err(e) => Err(e)
    case Ok(s) =>
      match Substr(w, pos2, count2)
      case Err(e) => Err(e)
      case Ok(t) => Ok(Compare(s, t))
  }

  /** `compare(s)` for a C string s. */
  function CompareCString(v: View, buf: seq<char>, p: nat): (r: int)
    requires Valid(v) && p <= |buf| <= NPOS && '\0' in buf[p..]
    ensures r == CompareChars(Chars(v), buf[p..p + CLength(buf, p)])
  {
    Compare(v, FromCString(buf, p))
  }

  /** `compare(pos1, count1, s)` for a C string s. */
  function CompareSubCString(v: View, pos1: nat, count1: nat, buf: seq<char>, p: nat): (r: Result<int>)
    requires Valid(v) && p <= |buf| <= NPOS && '\0' in buf[p..]
    ensures r.Err? <==> pos1 > |Chars(v)|
    ensures r.Ok? ==> r.value == CompareChars(Chars(v)[pos1..pos1 + Min(count1, |Chars(v)| - pos1)],
                                             buf[p..p + CLength(buf, p)])
  {
    CompareSub(v, pos1, count1, FromCString(buf, p))
  }

  /** `compare(pos1, count1, s, count2)`: s names count2 characters. */
  function CompareSubPointer(v: View, pos1: nat, count1: nat, buf: seq<char>, p: nat, count2: nat): (r: Result<int>)
    requires Valid(v) && p + count2 <= |buf| <= NPOS
    ensures r.Err? <==> pos1 > |Chars(v)|
    ensures r.Ok? ==> r.value == CompareChars(Chars(v)[pos1..pos1 + Min(count1, |Chars(v)| - pos1)],
                                             buf[p..p + count2])
  {
    CompareSub(v, pos1, count1, FromPointer(buf, p, count2))
  }

  /** `starts_with(sv)`: the first `sv.size()` characters (or fewer, when
      the view is shorter) are compared with sv, character by character. */
  function StartsWith(v: View, sv: View): (r: bool)
    requires Valid(v) && Valid(sv)
    ensures r <==> |Chars(sv)| <= |Chars(v)| && Chars(v)[..|Chars(sv)|] == Chars(sv)
  {
    var truncated := Substr(v, 0, sv.size).value;
    Chars(truncated) == Chars(sv)
  }

  /** `starts_with(c)`: false on an empty view, otherwise the front
      character is c. */
  function StartsWithChar(v: View, c: char): (r: bool)
    requires Valid(v)
    ensures r <==> |Chars(v)| > 0 && Chars(v)[0] == c
  {
    if !IsEmpty(v) then Front(v) == c else false
  }

  /** `starts_with(s)` for a C string s. */
  function StartsWithCString(v: View, buf: seq<char>, p: nat): (r: bool)
    requires Valid(v) && p <= |buf| <= NPOS && '\0' in buf[p..]
    ensures var s := buf[p..p + CLength(buf, p)];
      r <==> |s| <= |Chars(v)| && Chars(v)[..|s|] == s
  {
    StartsWith(v, FromCString(buf, p))
  }

  /** `ends_with(sv)`: false when sv is longer; otherwise
      `compare(size() - sv.size(), npos, sv) == 0`. */
  function EndsWith(v: View, sv: View): (r: bool)
    requires Valid(v) && Valid(sv)
    ensures r <==> |Chars(sv)| <= |Chars(v)| && Chars(v)[|Chars(v)| - |Chars(sv)|..] == Chars(sv)
  {
    if v.size >= sv.size then
      var c := CompareSub(v, v.size - sv.size, NPOS, sv);
      c.value == 0
    else false
  }

  /** `ends_with(c)`: false on an empty view, otherwise the back character
      is c. */
  function EndsWithChar(v: View, c: char): (r: bool)
    requires Valid(v)
    ensures r <==> |Chars(v)| > 0 && Chars(v)[|Chars(v)| - 1] == c
  {
    if !IsEmpty(v) then Back(v) == c else false
  }

  /** `ends_with(s)` for a C string s. */
  function EndsWithCString(v: View, buf: seq<char>, p: nat): (r: bool)
    requires Valid(v) && p <= |buf| <= NPOS && '\0' in buf[p..]
    ensures var s := buf[p..p + CLength(buf, p)];
      r <==> |s| <= |Chars(v)| && Chars(v)[|Chars(v)| - |s|..] == s
  {
    EndsWith(v, FromCString(buf, p))
  }

  /** `remove_prefix(n)` as written: only the pointer moves, so the view
      keeps its size and now ends n characters later. */
  function RemovePrefixAsWritten(v: View, n: nat): (r: View)
  {
    v.(ptr := v.ptr + n)
  }

  /** On a view running to the end of its array, `remove_prefix` as written
      by any n > 0 gives a view that extends past the array. */
  lemma RemovePrefixAsWrittenOverruns(v: View, n: nat)
    requires Valid(v) && v.ptr + v.size == |v.buf| && n > 0
    ensures !Valid(RemovePrefixAsWritten(v, n))
  {
  }

  /** A view whose pointer and size a program may change in place. */
  class StringView {
    var view: View

    ghost predicate Inv()
      reads this
    {
      Valid(view)
    }

    constructor (v: View)
      requires Valid(v)
      ensures view == v && Inv()
    {
      view := v;
    }

    /** `remove_prefix(n)` as intended: the pointer moves forward by n and
        the size shrinks by n. The standard requires n <= size(). */
    method RemovePrefix(n: nat)
      requires Inv() && n <= view.size
      modifies this
      ensures Inv()
      ensures view.buf == old(view.buf) && view.ptr == old(view.ptr) + n && view.size == old(view.size) - n
      ensures Chars(view) == old(Chars(view))[n..]
    {
      view := view.(ptr := view.ptr + n, size := view.size - n);
    }

    /** `remove_suffix(n)`: the size shrinks by n; the start stays. */
    method RemoveSuffix(n: nat)
      requires Inv() && n <= view.size
      modifies this
      ensures Inv()
      ensures view.buf == old(view.buf) && view.ptr == old(view.ptr) && view.size == old(view.size) - n
      ensures Chars(view) == old(Chars(view))[..old(view.size) - n]
    {
      ghost var before := Chars(view);
      view := view.(size := view.size - n);
      assert Chars(view) == before[..old(view.size) - n];
    }

    /** `swap(v)`: exchanges pointer and size with another view. */
    method Swap(other: StringView)
      requires Inv() && other.Inv()
      modifies this, other
      ensures Inv() && other.Inv()
      ensures view == old(other.view) && other.view == old(view)
    {
      var tmp := view;
      view := other.view;
      other.view := tmp;
    }
  }
}
