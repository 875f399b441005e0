/** What every module shares: two result shapes, and one word about sequences. */
module Wrappers {
  /** A nullable value: `null`/`undefined` in the TypeScript sources, `Option` in the Rust ones. */
  datatype Option<+T> = None | Some(value: T)

  /** Rust's `Result`. */
  datatype Result<+T, +E> = Ok(value: T) | Err(error: E)

  ghost predicate NoRepeats<T>(s: seq<T>) { forall i, j :: 0 <= i < j < |s| ==> s[i] != s[j] }
}
