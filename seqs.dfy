/** Facts about sequences that the proofs of both printf imitations use. */
module Seqs {
  /** A sequence is its prefix before `t`, its element at `t`, and the rest. */
  lemma SplitAt<T>(s: seq<T>, t: nat)
    requires t < |s|
    ensures s == s[..t] + ([s[t]] + s[t + 1..])
    ensures ([s[t]] + s[t + 1..])[0] == s[t] && ([s[t]] + s[t + 1..])[1..] == s[t + 1..]
  {
  }

  lemma AppendAssoc<T>(a: seq<T>, b: seq<T>, c: seq<T>)
    ensures (a + b) + c == a + (b + c)
  {
  }
}
