/** Identities of sequence concatenation. They model nothing in the quiz program: they are
    proof aids, called where stating the regrouping outright keeps a proof small. */
module Seqs {
  lemma ConsAssociative<T>(x: T, a: seq<T>, b: seq<T>)
    ensures [x] + (a + b) == ([x] + a) + b
  {
  }

  lemma ConsAppend<T>(a: seq<T>, x: T, b: seq<T>)
    ensures a + ([x] + b) == (a + [x]) + b
  {
  }

  lemma AppendEmpty<T>(s: seq<T>)
    ensures s + [] == s && [] + s == s
  {
  }
}
