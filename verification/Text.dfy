/** Searching a text for the first occurrence of a scalar. */
module Text {
  predicate Lacks(text: string, c: char) {
    forall i :: 0 <= i < |text| ==> text[i] != c
  }

  /** The position of the first separator, or the length. */
  function FirstOf(text: string, separator: char): (k: nat)
    ensures k <= |text| && Lacks(text[..k], separator)
    ensures k < |text| ==> text[k] == separator
  {
    if text == [] || text[0] == separator then 0 else 1 + FirstOf(text[1..], separator)
  }

  lemma {:induction false} FirstOfUnique(before: string, separator: char, after: string)
    requires Lacks(before, separator)
    ensures FirstOf(before + [separator] + after, separator) == |before|
    ensures FirstOf(before, separator) == |before|
  {
    if before != [] {
      FirstOfUnique(before[1..], separator, after);
      assert (before + [separator] + after)[1..] == before[1..] + [separator] + after;
    }
  }
}
