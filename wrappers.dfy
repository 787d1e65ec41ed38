/** Optional values: the model of Kotlin's nullable types (`T?`). */
module Wrappers {

  datatype Option<+T> = None | Some(value: T)

  /** Kotlin's `firstOrNull`: the head of a list, or null when the list is empty. */
  function FirstOrNull<T>(s: seq<T>): (r: Option<T>)
    ensures r.None? <==> |s| == 0
    ensures r.Some? ==> r.value == s[0]
  {
    if |s| == 0 then None else Some(s[0])
  }
}
