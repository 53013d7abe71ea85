/** Option and Result, the two failure-carrying datatypes the model uses in
    place of Python's `None` results and raised exceptions. */
module Wrappers {

  datatype Option<+T> = None | Some(value: T)

  /** The outcome of an operation that can raise: a value or the error raised. */
  datatype Result<+T, +E> = Success(value: T) | Failure(error: E) {

    /** The same failure, at another value type. */
    function PropagateFailure<U>(): (r: Result<U, E>)
      requires Failure?
      ensures r.Failure? && r.error == error
    {
      Failure(error)
    }

    /** Applies `f` to a success value; a failure passes through unchanged. */
    function MapValue<U>(f: T -> U): (r: Result<U, E>)
      ensures r.Success? <==> Success?
      ensures Success? ==> r.value == f(value)
      ensures Failure? ==> r.error == error
    {
      match this
      case Success(v) => Success(f(v))
      case Failure(e) => Failure(e)
    }

    /** Applies `f` to a failure's error; a success passes through unchanged. */
    function MapFailure<F>(f: E -> F): (r: Result<T, F>)
      ensures r.Success? <==> Success?
      ensures Success? ==> r.value == value
      ensures Failure? ==> r.error == f(error)
    {
      match this
      case Success(v) => Success(v)
      case Failure(e) => Failure(f(e))
    }
  }

  /** All the values of a list of results, or the error of the first failure:
      what a list comprehension over a raising call produces. */
  function Collect<T, E>(rs: seq<Result<T, E>>): (r: Result<seq<T>, E>)
    ensures r.Success? <==> forall i :: 0 <= i < |rs| ==> rs[i].Success?
    ensures r.Success? ==> |r.value| == |rs|
    ensures r.Success? ==> forall i :: 0 <= i < |rs| ==> rs[i] == Success(r.value[i])
    ensures r.Failure? ==> FirstFailure(rs) < |rs| && rs[FirstFailure(rs)] == Failure(r.error)
  {
    if rs == [] then Success([])
    else
      match rs[0]
      case Failure(e) => Failure(e)
      case Success(v) =>
        match Collect(rs[1..])
        case Failure(e) => Failure(e)
        case Success(vs) => Success([v] + vs)
  }

  /** The index of the first failure in a list of results, or its length when
      there is none. */
  function FirstFailure<T, E>(rs: seq<Result<T, E>>): (k: nat)
    ensures k <= |rs|
    ensures forall i :: 0 <= i < k ==> rs[i].Success?
    ensures k < |rs| ==> rs[k].Failure?
  {
    if rs == [] then 0
    else if rs[0].Failure? then 0
    else 1 + FirstFailure(rs[1..])
  }
}
