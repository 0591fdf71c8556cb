/** The order in which modes and extended bans are listed: lower case before upper case. */
module LetterOrder {
  import opened Common

  /** sort_character_lowercase_before_uppercase. */
  predicate SortBefore(x: char, y: char) {
    if IsLower(x) && IsUpper(y) then true
    else if IsUpper(x) && IsLower(y) then false
    else x < y
  }

  predicate BetweenTheCases(c: char) { 'Z' < c < 'a' }

  /** The order is not transitive on all characters: upper case, the six characters between the cases,
      and lower case go round in a circle, and that is the only way it fails. */
  lemma OrderTransitiveIff(x: char, y: char, z: char)
    requires SortBefore(x, y) && SortBefore(y, z)
    ensures !SortBefore(x, z) <==>
            || (IsUpper(x) && BetweenTheCases(y) && IsLower(z))
            || (BetweenTheCases(x) && IsLower(y) && IsUpper(z))
            || (IsLower(x) && IsUpper(y) && BetweenTheCases(z))
  {
  }

  /** On the other characters it is a strict total order. */
  lemma OrderIsTotalOtherwise(x: char, y: char, z: char)
    requires !BetweenTheCases(x) && !BetweenTheCases(y) && !BetweenTheCases(z)
    ensures !SortBefore(x, x)
    ensures x != y ==> SortBefore(x, y) != SortBefore(y, x)
    ensures SortBefore(x, y) && SortBefore(y, z) ==> SortBefore(x, z)
  {
  }
}
