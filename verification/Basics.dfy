/** What several modules share: optional values, addresses, sequences without repetition. */
module Basics {
  datatype Option<+T> = None | Some(value: T)

  type Address = nat

  ghost predicate NoDuplicates<T>(s: seq<T>) {
    forall i, j :: 0 <= i < j < |s| ==> s[i] != s[j]
  }
}
