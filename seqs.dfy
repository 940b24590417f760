/** Element-wise traversal of a list, as a Python `for` loop that updates
    every element through the same per-element rule. */
module Seqs {

  /** The list obtained by applying `f` to every element of `s`, in order. */
  function MapSeq<T, U>(f: T -> U, s: seq<T>): (r: seq<U>)
    ensures |r| == |s|
    ensures forall i :: 0 <= i < |s| ==> r[i] == f(s[i])
  {
    if s == [] then [] else [f(s[0])] + MapSeq(f, s[1..])
  }

  /** Mapping twice with a rule that is idempotent on every element of `s`
      is the same as mapping once; it follows from the element-wise
      contract of `MapSeq`. */
  lemma MapSeqIdempotent<T>(f: T -> T, s: seq<T>)
    requires forall i :: 0 <= i < |s| ==> f(f(s[i])) == f(s[i])
    ensures MapSeq(f, MapSeq(f, s)) == MapSeq(f, s)
  {
  }
}
