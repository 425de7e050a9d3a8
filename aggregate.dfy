/**
 * `Array.aggregateResult` of Repository.swift: a list of results becomes one
 * result, the list of all values when every element succeeded, or else the
 * first failure.
 */
module Aggregation {

  /** Swift's `Result<Value, Error>`. */
  datatype Result<V, E> = Success(value: V) | Failure(error: E)

  /** Whether every element succeeded. */
  predicate AllSucceed<V, E>(rs: seq<Result<V, E>>) {
    forall i :: 0 <= i < |rs| ==> rs[i].Success?
  }

  /** The position of the first failure (the length when there is none). */
  function FirstFailure<V, E>(rs: seq<Result<V, E>>): (k: nat)
    ensures k <= |rs|
    ensures forall j :: 0 <= j < k ==> rs[j].Success?
    ensures k < |rs| ==> rs[k].Failure?
  {
    if rs == [] || rs[0].Failure? then 0 else 1 + FirstFailure(rs[1..])
  }

  /** What `aggregateResult` returns. */
  function Aggregate<V, E>(rs: seq<Result<V, E>>): (r: Result<seq<V>, E>)
    ensures r.Success? <==> AllSucceed(rs)
    ensures r.Success? ==> |r.value| == |rs| && forall i :: 0 <= i < |rs| ==> r.value[i] == rs[i].value
    ensures r.Failure? ==> FirstFailure(rs) < |rs| && r.error == rs[FirstFailure(rs)].error
  {
    if rs == [] then Success([])
    else
      match rs[0]
      case Failure(e) => Failure(e)
      case Success(v) =>
        match Aggregate(rs[1..])
        case Failure(e) => Failure(e)
        case Success(vs) => Success([v] + vs)
  }

  /** `aggregateResult`: the loop appending values, returning at the first failure. */
  method AggregateResult<V, E>(rs: seq<Result<V, E>>) returns (r: Result<seq<V>, E>)
    ensures r == Aggregate(rs)
  {
    var values: seq<V> := [];
    var i := 0;
    while i < |rs|
      invariant 0 <= i <= |rs| && i <= FirstFailure(rs)
      invariant |values| == i && forall j :: 0 <= j < i ==> values[j] == rs[j].value
    {
      match rs[i] {
        case Success(v) =>
          values := values + [v];
        case Failure(e) =>
          return Failure(e);
      }
      i := i + 1;
    }
    assert AllSucceed(rs) && values == Aggregate(rs).value;
    return Success(values);
  }

  /**
   * Nothing after the first failure matters, and the successes before it are
   * dropped: any elements may follow.
   */
  lemma {:induction false} AggregateStopsAtFailure<V, E>(rs: seq<Result<V, E>>, rest: seq<Result<V, E>>)
    requires !AllSucceed(rs)
    ensures Aggregate(rs + rest) == Aggregate(rs)
  {
    if rs[0].Success? {
      assert (rs + rest)[1..] == rs[1..] + rest;
      assert !AllSucceed(rs[1..]) by {
        var i :| 0 <= i < |rs| && rs[i].Failure?;
        assert rs[1..][i - 1] == rs[i];
      }
      AggregateStopsAtFailure(rs[1..], rest);
    }
  }

  /** The empty list aggregates to no values. */
  lemma AggregateEmpty<V, E>()
    ensures Aggregate<V, E>([]) == Success([])
  {
  }
}
