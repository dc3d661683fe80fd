/** Two facts about sequences that proofs by induction from the right lean on. */
module Seqs {

  lemma Unsnoc<T>(t: seq<T>)
    requires t != []
    ensures t == t[..|t| - 1] + [t[|t| - 1]]
  {
  }

  lemma Regroup<T>(a: seq<T>, b: seq<T>, c: seq<T>)
    ensures (a + b) + c == a + (b + c)
  {
  }
}
