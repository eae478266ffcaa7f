/** Definitions shared by the catalogs and both cogs' tables. */
module Basics {

  /** A Discord user id (`discord_id INTEGER`), the key both cogs file rows under. */
  type UserId = int

  /** No element occurs twice: distinct labels, distinct keys, or a table's primary key. */
  predicate NoDuplicates<T(==)>(s: seq<T>)
  {
    forall i, j :: 0 <= i < j < |s| ==> s[i] != s[j]
  }
}
