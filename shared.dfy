/** Small wrapper types shared by every module of the model. */
module Shared {

  /** An optional value: a query's `.first()` that may find no row, a claim that may be absent. */
  datatype Option<+T> = None | Some(value: T)

  /** A value, or the error that ended the computation (an `HTTPException` in the source). */
  datatype Result<+T, +E> = Ok(value: T) | Err(error: E)

  /** Passing a check, or the error that stopped it (a raised `ValueError` in the source). */
  datatype Outcome<+E> = Pass | Fail(error: E)

  /** Index of the first row that satisfies `p`: what `.first()` returns for a filtered query
      over a table whose rows are kept in insertion order. */
  function FirstWhere<T>(rows: seq<T>, p: T -> bool): (r: Option<nat>)
    ensures r.Some? ==> r.value < |rows| && p(rows[r.value])
    ensures r.Some? ==> forall j :: 0 <= j < r.value ==> !p(rows[j])
    ensures r.None? <==> forall j :: 0 <= j < |rows| ==> !p(rows[j])
  {
    if rows == [] then None
    else if p(rows[0]) then Some(0)
    else match FirstWhere(rows[1..], p)
      case None => None
      case Some(k) => Some(k + 1)
  }
}
