/** Error outcomes of the deduplication helpers, standing for the Python exceptions they raise. */
module Common {

  /** The exceptions the modelled functions raise. */
  datatype Error =
    | ValueError        // a configuration or argument-shape check failed
    | ZeroDivisionError // a `/` or `%` with a zero right operand
    | KeyError          // a column that the frame does not have

  /** Either a value or the exception that would have been raised instead. */
  datatype Result<T> = Ok(value: T) | Err(error: Error)

  /** The positions `0 .. n-1`, in order. */
  function Range(n: nat): (r: seq<nat>)
    ensures |r| == n
    ensures forall p :: 0 <= p < n ==> r[p] == p
  {
    if n == 0 then [] else Range(n - 1) + [n - 1]
  }

  /** A subset is no larger than its superset. */
  lemma SubsetCardinality<T>(x: set<T>, y: set<T>)
    requires x <= y
    ensures |x| <= |y|
  {
    assert y == x + (y - x);
  }
}
