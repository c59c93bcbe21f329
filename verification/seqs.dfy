/** Two facts about sequence concatenation that the proofs cite by name. */
module Seqs {

  /** Concatenation regroups freely. */
  lemma Associate<T>(x: seq<T>, y: seq<T>, z: seq<T>)
    ensures x + (y + z) == x + y + z
  {
  }

  /** Two sequences with the same start and equal rests are equal. */
  lemma Rejoin<T>(x: seq<T>, y: seq<T>, z: seq<T>, a: seq<T>, w: seq<T>)
    requires x == a + y && y == z && w == a + z
    ensures x == w
  {
  }

  /** A slice followed by more is its first element followed by the rest. */
  lemma SliceCons<T>(s: seq<T>, k: nat, n: nat, x: seq<T>)
    requires k < n <= |s|
    ensures s[k..n] + x == [s[k]] + (s[k + 1..n] + x)
  {
    assert s[k..n] == [s[k]] + s[k + 1..n];
  }
}
