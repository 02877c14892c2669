/** Small failure-carrying datatypes shared by every module of the model. */
module Wrappers {

  /** A value that may be absent (a JavaScript `null`/`undefined`, or a lookup that found nothing). */
  datatype Option<+T> = None | Some(value: T)

  /** The outcome of a request handler: a result, or the HTTP status and message it answers with. */
  datatype Response<+T> = Ok(value: T) | Err(status: nat, message: string)

  /** A field of an update request: left as it is, or set to a new value. */
  datatype Patch<+T> = Keep | Set(value: T)

  function ApplyPatch<T>(p: Patch<T>, current: T): (r: T)
    ensures p.Keep? ==> r == current
    ensures p.Set? ==> r == p.value
  {
    match p
    case Keep => current
    case Set(v) => v
  }

  /** `x || null` on an optional string: an empty string counts as absent. */
  function OrNull(x: Option<string>): (r: Option<string>)
    ensures r.Some? <==> x.Some? && x.value != ""
    ensures r.Some? ==> r == x
  {
    if x.Some? && x.value != "" then x else None
  }
}
