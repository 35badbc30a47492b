/** Character classification of the "C" locale, and the mutable
    `std::string` that vigen.cc passes around by non-const reference. */
module Ascii {

  /** `std::isalpha` restricted to ASCII: the 52 letters. */
  predicate IsAlpha(c: char) {
    'a' <= c <= 'z' || 'A' <= c <= 'Z'
  }

  predicate IsLower(c: char) {
    'a' <= c <= 'z'
  }

  predicate IsUpper(c: char) {
    'A' <= c <= 'Z'
  }

  /** `::tolower`: upper-case letters map to their lower-case partner,
      every other character is returned as is. */
  function ToLower(c: char): (r: char)
    ensures IsAlpha(c) <==> IsLower(r)
    ensures !IsUpper(c) ==> r == c
    ensures IsUpper(c) ==> r as int - 'a' as int == c as int - 'A' as int
  {
    if IsUpper(c) then (c as int - 'A' as int + 'a' as int) as char else c
  }

  /** `std::transform(s.begin(), s.end(), s.begin(), ::tolower)` as a value. */
  function Lower(s: string): (r: string)
    ensures |r| == |s|
    ensures forall i :: 0 <= i < |s| ==> (IsAlpha(s[i]) <==> IsLower(r[i]))
    ensures forall i :: 0 <= i < |s| && !IsUpper(s[i]) ==> r[i] == s[i]
  {
    seq(|s|, i requires 0 <= i < |s| => ToLower(s[i]))
  }

  predicate AllLower(s: string) {
    forall i :: 0 <= i < |s| ==> IsLower(s[i])
  }

  predicate AllAlpha(s: string) {
    forall i :: 0 <= i < |s| ==> IsAlpha(s[i])
  }

  predicate NoAlpha(s: string) {
    forall i :: 0 <= i < |s| ==> !IsAlpha(s[i])
  }

  /** Lower-casing twice is lower-casing once, and a string of lower-case
      letters is its own lower-case form. */
  lemma {:induction false} LowerIdempotent(s: string)
    ensures Lower(Lower(s)) == Lower(s)
    ensures AllLower(s) ==> Lower(s) == s
  {
  }

  /** Lower-casing keeps letters letters, non-letters where they are,
      and turns an all-letter string into an all-lower-case one. */
  lemma {:induction false} LowerLetters(s: string)
    ensures forall i :: 0 <= i < |s| ==> (IsAlpha(Lower(s)[i]) <==> IsAlpha(s[i]))
    ensures forall i :: 0 <= i < |s| && !IsAlpha(s[i]) ==> Lower(s)[i] == s[i]
    ensures AllAlpha(s) ==> AllLower(Lower(s))
  {
  }

  /** A `std::string` passed by non-const reference: the callee's updates
      are seen by the caller. */
  class StringRef {
    var value: string

    constructor (s: string)
      ensures value == s
    {
      value := s;
    }
  }

  /** The in-place `std::transform(…, ::tolower)` of vigen.cc:57-58. */
  method LowerInPlace(s: StringRef)
    modifies s
    ensures s.value == Lower(old(s.value))
  {
    var i := 0;
    while i < |s.value|
      invariant 0 <= i <= |s.value| == |old(s.value)|
      invariant forall j :: 0 <= j < i ==> s.value[j] == ToLower(old(s.value)[j])
      invariant forall j :: i <= j < |s.value| ==> s.value[j] == old(s.value)[j]
    {
      s.value := s.value[i := ToLower(s.value[i])];
      i := i + 1;
    }
  }
}
