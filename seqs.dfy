/** Facts about sequence prefixes that the loops over walked files, tokens and entries share. */
module Seqs {

  /** Extending a prefix by the next element gives the next prefix. */
  lemma TakeSnoc<X>(s: seq<X>, i: nat)
    requires i < |s|
    ensures s[..i] + [s[i]] == s[..i + 1] && s[..i + 1][..i] == s[..i]
  {
  }

  /** The prefix of full length is the sequence itself. */
  lemma TakeAll<X>(s: seq<X>)
    ensures s[..|s|] == s
  {
  }

  /** Concatenation is associative; stated once so that proofs need not rediscover it element by element. */
  lemma AppendAssoc<X>(x: seq<X>, y: seq<X>, z: seq<X>)
    ensures x + (y + z) == (x + y) + z
  {
  }
}
