/**
 * Optional values (a SQL row that may be missing, a JavaScript `null`), and
 * the one fact about sequences the table proofs keep needing.
 */
module Wrappers {
  datatype Option<+T> = None | Some(value: T)

  /** A non-empty sequence is its front followed by its last element. */
  lemma SplitLast<T>(s: seq<T>)
    requires s != []
    ensures s[..|s| - 1] + [s[|s| - 1]] == s
  {
  }
}
