/** Searching sequences. */
module Seqs {

  /** Position of the first occurrence, or the length if there is none. */
  function IndexOf<T(==)>(s: seq<T>, x: T): (k: nat)
    ensures k <= |s| && (k < |s| ==> s[k] == x) && (x in s ==> k < |s|) && forall j :: 0 <= j < k ==> s[j] != x
  {
    if s == [] || s[0] == x then 0 else IndexOf(s[1..], x) + 1
  }
}
