/**
 * Search scores: a board evaluation, or one of the two infinities the
 * search starts from (`-Infinity`, `Infinity`), with the order and the
 * `Math.max` / `Math.min` the search applies to them.
 */
module Scores {

  datatype Score = NegInf | Fin(value: real) | PosInf

  /** x <= y in the extended order. */
  predicate Le(x: Score, y: Score)
  {
    match (x, y)
    case (NegInf, _) => true
    case (_, PosInf) => true
    case (Fin(a), Fin(b)) => a <= b
    case _ => false
  }

  predicate Lt(x: Score, y: Score)
  {
    !Le(y, x)
  }

  /** `Math.max`: the larger of the two. */
  function Max(x: Score, y: Score): (r: Score)
    ensures Le(x, r) && Le(y, r)
    ensures r == x || r == y
  {
    if Le(x, y) then y else x
  }

  /** `Math.min`: the smaller of the two. */
  function Min(x: Score, y: Score): (r: Score)
    ensures Le(r, x) && Le(r, y)
    ensures r == x || r == y
  {
    if Le(x, y) then x else y
  }

  /** Le is a total order on scores. */
  lemma LeTotalOrder()
    ensures forall x :: Le(x, x)
    ensures forall x, y :: Le(x, y) || Le(y, x)
    ensures forall x, y :: Le(x, y) && Le(y, x) ==> x == y
    ensures forall x, y, z :: Le(x, y) && Le(y, z) ==> Le(x, z)
  {
  }
}
