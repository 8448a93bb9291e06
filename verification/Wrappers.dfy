/** Small types and list functions shared by the other modules. */
module Wrappers {

  datatype Option<+T> = None | Some(value: T) {
    function GetOr(default: T): T {
      if Some? then value else default
    }
  }

  /** The first `k` elements, or all of a shorter list. */
  function Take<T>(xs: seq<T>, k: nat): (r: seq<T>)
    ensures r <= xs && |r| <= k && (|xs| > k ==> |r| == k) && (|xs| <= k ==> r == xs)
  {
    if |xs| <= k then xs else xs[..k]
  }
}
