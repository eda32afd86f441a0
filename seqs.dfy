/** Facts about sequences that the loops building lists by appending use. */
module Seqs {
  /** The first `i + 1` elements are the first `i` followed by element `i`. */
  lemma TakeSnoc<T>(s: seq<T>, i: nat)
    requires i < |s|
    ensures s[..i + 1] == s[..i] + [s[i]]
  {
  }
}
