/** Keys and rows of the directory table, and the answers the cache gives for them. */
module DirKeys {
  datatype Key = Key(parent: nat, name: string)

  type Table = map<Key, nat>

  const NOT_EXIST: int := -1
  const UNKNOWN: int := -2

  function Lookup(t: Table, k: Key): int {
    if k in t then t[k] else NOT_EXIST
  }
}
