/** Failure-carrying result types shared by the rest of the model. */
module Wrappers {

  /** A value that may be absent: Rust's `Option`. */
  datatype Option<+T> = None | Some(value: T)

  /** A computation that either yields a value or is rejected with an error. */
  datatype Result<+T, +E> = Ok(value: T) | Err(error: E)

  /** `a` is obtained from `b` by deleting zero or more elements, keeping the order of the rest. */
  predicate IsSubsequence<T(==)>(a: seq<T>, b: seq<T>)
    decreases |b|
  {
    if a == [] then true
    else if b == [] then false
    else (a[0] == b[0] && IsSubsequence(a[1..], b[1..])) || IsSubsequence(a, b[1..])
  }

  /** Every sequence is a subsequence of itself. */
  lemma {:induction false} SubsequenceRefl<T>(s: seq<T>)
    ensures IsSubsequence(s, s)
  {
    if s != [] {
      SubsequenceRefl(s[1..]);
    }
  }

  /** A subsequence is never longer than the sequence it is taken from, and keeps only its elements. */
  lemma {:induction false} SubsequenceBounds<T>(a: seq<T>, b: seq<T>)
    requires IsSubsequence(a, b)
    ensures |a| <= |b|
    ensures forall x :: x in a ==> x in b
    decreases |b|
  {
    if a == [] {
    } else if a[0] == b[0] && IsSubsequence(a[1..], b[1..]) {
      SubsequenceBounds(a[1..], b[1..]);
      forall x | x in a ensures x in b {
        if x != a[0] {
          assert x in a[1..];
        }
      }
    } else {
      SubsequenceBounds(a, b[1..]);
    }
  }
}
