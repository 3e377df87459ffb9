/** Failure-compatible wrappers. The JavaScript code reports every failure by
    throwing (mostly a TypeError from reading a property of `undefined`); the
    model returns a `Failure` instead and propagates it with `:-`, which aborts
    the computation exactly where the exception would. */
module Results {

  /** A value or JavaScript's `undefined`. */
  datatype Option<+T> = None | Some(value: T)

  datatype Result<+T, +E> = Success(value: T) | Failure(error: E) {
    predicate IsFailure() { Failure? }

    function PropagateFailure<U>(): Result<U, E>
      requires Failure?
    {
      Failure(error)
    }

    function Extract(): T
      requires Success?
    {
      value
    }
  }

  /** `xs.map(f)` where `f` may throw: the elements are processed in order and
      the first failure aborts the whole map. */
  function MapResult<A, B, E(==)>(xs: seq<A>, f: A -> Result<B, E>): (r: Result<seq<B>, E>)
    ensures r.Success? <==> forall j :: 0 <= j < |xs| ==> f(xs[j]).Success?
    ensures r.Success? ==> |r.value| == |xs|
    ensures r.Success? ==> forall j :: 0 <= j < |xs| ==> r.value[j] == f(xs[j]).value
    ensures r.Failure? ==>
      exists j :: 0 <= j < |xs| && f(xs[j]).Failure? && f(xs[j]).error == r.error
                  && forall i :: 0 <= i < j ==> f(xs[i]).Success?
    decreases |xs|
  {
    if xs == [] then Success([])
    else
      var head :- f(xs[0]);
      var tail :- MapResult(xs[1..], f);
      Success([head] + tail)
  }

  /** Two maps over the same elements with functions that agree on those
      elements give the same result. */
  lemma {:induction false} MapResultCongruent<A, B, E>(xs: seq<A>, f: A -> Result<B, E>, g: A -> Result<B, E>)
    requires forall j :: 0 <= j < |xs| ==> f(xs[j]) == g(xs[j])
    ensures MapResult(xs, f) == MapResult(xs, g)
    decreases |xs|
  {
    if xs != [] {
      MapResultCongruent(xs[1..], f, g);
    }
  }
}
