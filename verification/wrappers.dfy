/** Failure-carrying datatypes shared by the whole model: `Option` for the
    values SQL and JavaScript may leave null/undefined, `Result` for the
    operations that raise or answer with an error. */
module Wrappers {

  datatype Option<+T> = None | Some(value: T) {

    /** SQL `coalesce(x, d)` / JavaScript `x ?? d`. */
    function GetOr(default: T): T {
      match this
      case Some(v) => v
      case None => default
    }
  }

  datatype Result<+R, +E> = Success(value: R) | Failure(error: E) {

    predicate IsFailure() {
      Failure?
    }

    function PropagateFailure<U>(): Result<U, E>
      requires Failure?
    {
      Failure(error)
    }

    function Extract(): R
      requires Success?
    {
      value
    }
  }

  /** Apply `f` to the elements in order, stopping at the first failure,
      which then decides the error. */
  function Traverse<A, B, E>(xs: seq<A>, f: A -> Result<B, E>): (r: Result<seq<B>, E>)
    ensures r.Success? <==> forall k :: 0 <= k < |xs| ==> f(xs[k]).Success?
    ensures r.Success? ==>
      && |r.value| == |xs|
      && forall k :: 0 <= k < |xs| ==> r.value[k] == f(xs[k]).value
    ensures r.Failure? ==>
      exists k ::
        && 0 <= k < |xs|
        && f(xs[k]) == Failure(r.error)
        && forall j :: 0 <= j < k ==> f(xs[j]).Success?
    decreases |xs|
  {
    if |xs| == 0 then Success([])
    else
      match f(xs[0])
      case Failure(e) => Failure(e)
      case Success(y) =>
        var tail := xs[1..];
        var rest := Traverse(tail, f);
        assert forall k :: 1 <= k < |xs| ==> xs[k] == tail[k - 1];
        if rest.Failure? then
          assert forall k :: 0 <= k < |tail| ==> xs[k + 1] == tail[k];
          Failure(rest.error)
        else
          var ys := [y] + rest.value;
          assert forall k :: 1 <= k < |xs| ==> ys[k] == rest.value[k - 1];
          Success(ys)
  }
}
