/** ASCII case maps standing in for `ToString().ToUpper()` and `ToString().ToLower()`
    on a single character. Characters outside a-z / A-Z are left as they are. */
module Casing {

  predicate IsLowerLetter(c: char) { 'a' <= c <= 'z' }

  predicate IsUpperLetter(c: char) { 'A' <= c <= 'Z' }

  /** Upper-case form of one character. */
  function Upper(c: char): (r: char)
    ensures !IsLowerLetter(r)
    ensures !IsLowerLetter(c) ==> r == c
    ensures IsLowerLetter(c) ==> IsUpperLetter(r) && r as int == c as int - 32
  {
    if IsLowerLetter(c) then (c as int - 32) as char else c
  }

  /** Lower-case form of one character. */
  function Lower(c: char): (r: char)
    ensures !IsUpperLetter(r)
    ensures !IsUpperLetter(c) ==> r == c
    ensures IsUpperLetter(c) ==> IsLowerLetter(r) && r as int == c as int + 32
  {
    if IsUpperLetter(c) then (c as int + 32) as char else c
  }

  /** Lowering an upper-cased character gives it back exactly when it was
      already in lower-case form. */
  lemma LowerOfUpper(c: char)
    ensures Lower(Upper(c)) == c <==> Lower(c) == c
  {
  }

  /** Upper-casing a lowered character gives it back exactly when it was
      already in upper-case form. */
  lemma UpperOfLower(c: char)
    ensures Upper(Lower(c)) == c <==> Upper(c) == c
  {
  }

  /** Re-applying a case map after a round trip through the other one is
      the same as applying it once. */
  lemma CaseMapsAbsorb(c: char)
    ensures Upper(Lower(Upper(c))) == Upper(c)
    ensures Lower(Upper(Lower(c))) == Lower(c)
  {
  }
}
