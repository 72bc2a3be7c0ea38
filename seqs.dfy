/** Small facts about sequences shared by the traversals that append to a list. */
module Seqs {
  /** Appending in two steps is appending the joined tail once. */
  lemma AppendAssoc<T>(a: seq<T>, b: seq<T>, c: seq<T>)
    ensures (a + b) + c == a + (b + c)
  {
  }
}
