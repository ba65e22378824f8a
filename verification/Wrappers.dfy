/** Shared result types. */
module Wrappers {

  datatype Option<+T> = None | Some(value: T)

  /** A call that returns normally, or throws. */
  datatype Result<+T, +E> = Ok(value: T) | Err(error: E)

  /** No element occurs twice. */
  predicate NoDuplicates<T(==)>(s: seq<T>) {
    forall i, j :: 0 <= i < j < |s| ==> s[i] != s[j]
  }

  lemma EmptyOrHasFirst<T>(s: seq<T>)
    ensures s == [] || s[0] in s
  {
  }
}
