/** What the preference code gets back from the browser's key-value store.
    Reads and writes themselves are I/O and appear here only as values. */
module Storage {

  datatype Option<T> = None | Some(value: T)

  /** The outcome of `localStorage.getItem(key)` inside a try block: no
      entry (null), a stored string, or a call that threw. */
  datatype Read = Missing | Found(value: string) | Unreadable

  /** `getItem(key) || fallback`, with a throw also giving `fallback`: the
      stored string when there is a non-empty one, the fallback otherwise. */
  function StoredOr(r: Read, fallback: string): (v: string)
    ensures v == fallback || (r == Found(v) && v != [])
    ensures r.Found? && r.value != [] ==> v == r.value
    ensures fallback != [] ==> v != []
  {
    match r
    case Found(s) => if s != [] then s else fallback
    case _ => fallback
  }
}
