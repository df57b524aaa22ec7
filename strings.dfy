/** `ntl::tolower`: a lower-cased copy of a string, character by character,
    in the C locale. */
module Strings {

  predicate IsUpper(c: char)
  {
    'A' <= c <= 'Z'
  }

  /** `std::tolower(c)` in the C locale: 'A'..'Z' become 'a'..'z', every
      other character is returned unchanged. */
  function LowerChar(c: char): (r: char)
    ensures IsUpper(c) ==> r as int == c as int + 32 && 'a' <= r <= 'z'
    ensures !IsUpper(c) ==> r == c
    ensures !IsUpper(r)
  {
    if IsUpper(c) then (c as int + 32) as char else c
  }

  /** `tolower(str)`: the copy `outputData` is transformed; the input is a
      value and stays as it was. */
  function ToLower(str: string): (r: string)
    ensures |r| == |str|
    ensures forall i :: 0 <= i < |str| ==> r[i] == LowerChar(str[i])
  {
    if str == [] then []
    else [LowerChar(str[0])] + ToLower(str[1..])
  }

  /** The result holds no uppercase letter, and lower-casing it again
      changes nothing. */
  lemma ToLowerIdempotent(str: string)
    ensures forall i :: 0 <= i < |str| ==> !IsUpper(ToLower(str)[i])
    ensures ToLower(ToLower(str)) == ToLower(str)
  {
  }

  /** Lower-casing forgets case only: two strings map to the same result
      exactly when they agree character by character up to case. */
  lemma ToLowerEqualIff(a: string, b: string)
    ensures ToLower(a) == ToLower(b) <==>
      |a| == |b| && forall i :: 0 <= i < |a| ==> LowerChar(a[i]) == LowerChar(b[i])
  {
    var la, lb := ToLower(a), ToLower(b);
    if la == lb {
      forall i | 0 <= i < |a|
        ensures LowerChar(a[i]) == LowerChar(b[i])
      {
        assert la[i] == lb[i];
      }
    }
    if |a| == |b| && forall i :: 0 <= i < |a| ==> LowerChar(a[i]) == LowerChar(b[i]) {
      assert forall i :: 0 <= i < |la| ==> la[i] == lb[i];
      assert la == lb;
    }
  }
}
