/** Result types shared by the repositories and services, and the id-ordered scan of a table. */
module Wrappers {

  datatype Option<+T> = None | Some(value: T)

  /** The two failures the core signals distinctly to the request layer. */
  datatype Error =
    | NotFound   // `findOrFail` found no row with the id (a 404 at the boundary)
    | Conflict   // a uniqueness constraint of the table was violated

  datatype Result<+T> = Success(value: T) | Failure(error: Error)

  /** The result of an operation that returns nothing on success (`void`). */
  datatype Outcome = Pass | Fail(error: Error)

  function Min(a: int, b: int): int { if a <= b then a else b }

  /**
   * The ids of `keys` below `n`, ascending: the order in which a table whose
   * surrogate ids all lie below `n` hands out its rows when no ORDER BY is given.
   */
  function Ascending(keys: set<nat>, n: nat): (ids: seq<nat>)
    ensures forall i, j :: 0 <= i < j < |ids| ==> ids[i] < ids[j]
    ensures forall id :: id in ids <==> id in keys && id < n
  {
    if n == 0 then []
    else
      var below := Ascending(keys, n - 1);
      assert forall i :: 0 <= i < |below| ==> below[i] in below;
      below + (if n - 1 in keys then [n - 1] else [])
  }
}
