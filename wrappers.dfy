/** The optional value used wherever the extension stores `null` or leaves a key absent. */
module Wrappers {

  datatype Option<+T> = None | Some(value: T)

  /** JavaScript's `x || null` on a string: the empty string becomes absent. */
  function NonEmpty(s: string): (r: Option<string>)
    ensures r.Some? <==> s != ""
    ensures r.Some? ==> r.value == s
  {
    if s == "" then None else Some(s)
  }
}
