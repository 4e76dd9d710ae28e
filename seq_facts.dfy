/** Small facts about sequence concatenation that the proofs of the other
    modules call instead of re-deriving them element by element. */
module SeqFacts {
  lemma Associative<T>(a: seq<T>, b: seq<T>, c: seq<T>)
    ensures a + (b + c) == a + b + c
  {
  }

  lemma AppendThree<T>(a: seq<T>, x: seq<T>, y: seq<T>, z: seq<T>)
    ensures a + x + y + z == a + (x + y + z)
  {
  }

  /** Two adjacent slices make up the slice that covers both. */
  lemma JoinSlices<T>(s: seq<T>, i: nat, j: nat, k: nat)
    requires i <= j <= k <= |s|
    ensures s[i..j] + s[j..k] == s[i..k]
  {
  }

  /** A prefix followed by two adjacent slices is the prefix followed by
      the slice that covers both. */
  lemma AppendSlices<T>(prefix: seq<T>, s: seq<T>, i: nat, j: nat, k: nat)
    requires i <= j <= k <= |s|
    ensures prefix + s[i..j] + s[j..k] == prefix + s[i..k]
  {
    assert s[i..k] == s[i..j] + s[j..k];
  }
}
