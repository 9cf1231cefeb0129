/**
 * The extension's persistent key-value store, seen as a value: a map from keys to
 * string lists. Every write replaces the value stored under one key in full and
 * is taken to succeed: the browser's quota and write-rate refusals are not modelled.
 */
module Storage {
  import opened Wrappers

  type Store = map<string, seq<string>>

  /** The one key both surfaces use for the clipboard history. */
  const HistoryKey: string := "clipboardTextList"

  /** `get([key])`: the stored value, or `None` when the key was never written. */
  function Get(store: Store, key: string): Option<seq<string>> {
    if key in store then Some(store[key]) else None
  }

  /** `set({key: value})`: the value under `key` becomes `value`; no other key is touched. */
  function Set(store: Store, key: string, value: seq<string>): (r: Store)
    ensures Get(r, key) == Some(value)
    ensures r.Keys == store.Keys + {key}
    ensures forall k :: k in store && k != key ==> r[k] == store[k]
  {
    store[key := value]
  }
}
