/** Option and Result: the nil results and (value, error) pairs of the Go
    source; and the first-index search the source runs over slices. */
module Wrappers {

  datatype Option<+T> = None | Some(value: T) {
    function GetOr(default: T): T {
      match this
      case Some(v) => v
      case None => default
    }
  }

  datatype Result<+R, +E> = Ok(value: R) | Err(error: E)

  /** `slices.IndexFunc`: the index of the first element satisfying `p`, or -1. */
  function FirstIndex<T>(xs: seq<T>, p: T -> bool): (i: int)
    ensures -1 <= i < |xs|
    ensures i >= 0 ==> p(xs[i])
    ensures forall k :: 0 <= k < |xs| && (i < 0 || k < i) ==> !p(xs[k])
  {
    if xs == [] then -1
    else if p(xs[0]) then 0
    else var j := FirstIndex(xs[1..], p); if j < 0 then -1 else j + 1
  }
}
