/** Small facts about sequences that several proofs hand to the verifier explicitly. */
module Seqs {
  /** Appending `t` and then `rest` is appending `[t] + rest`. */
  lemma AppendThrough<T>(front: seq<T>, t: T, rest: seq<T>, all: seq<T>, mid: seq<T>, whole: seq<T>)
    requires all == [t] + rest && mid == front + [t] && whole == mid + rest
    ensures whole == front + all
  {
  }

  /** The prefix and the last element of a sequence extended by one. */
  lemma SnocPrefix<T>(s: seq<T>, x: T)
    ensures (s + [x])[..|s|] == s && (s + [x])[|s|] == x
  {
  }

  lemma AssociateOne<T>(s: seq<T>, x: T, t: seq<T>)
    ensures s + ([x] + t) == (s + [x]) + t
  {
  }
}
