/** Failure-carrying wrappers shared by the model. */
module Wrappers {

  datatype Option<+T> = None | Some(value: T)

  /** A Rust `Result`: a value or an error. */
  datatype Result<+T, +E> = Ok(value: T) | Err(error: E)
}

/** Facts about sequences that several modules state. */
module Seqs {

  /** No element of `s` occurs twice. */
  predicate Distinct<T(==)>(s: seq<T>) {
    forall i, j :: 0 <= i < j < |s| ==> s[i] != s[j]
  }

  /** The elements of `s`, as a set. */
  function Elems<T(==)>(s: seq<T>): set<T> {
    set x | x in s
  }
}
