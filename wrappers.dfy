/** Option and Result, used for Python's failing calls (a missing key, a failed int()). */
module Wrappers {
  datatype Option<+T> = None | Some(value: T)

  datatype Result<+T, +E> = Ok(value: T) | Err(error: E)

  /**
   * A for-loop over xs whose body step may raise: the results of step on every element in order,
   * or the first failure, after which no later element is looked at. step also receives the index.
   */
  function MapUntilError<A, B, E>(step: (A, nat) -> Result<B, E>, xs: seq<A>): Result<seq<B>, E>
    decreases |xs|
  {
    if xs == [] then Ok([])
    else
      var n := |xs| - 1;
      match MapUntilError(step, xs[..n])
      case Err(e) => Err(e)
      case Ok(front) =>
        match step(xs[n], n)
        case Err(e) => Err(e)
        case Ok(y) => Ok(front + [y])
  }

  /** The index of the first element on which step fails, or |xs| when there is none. */
  function FirstFailure<A, B, E>(step: (A, nat) -> Result<B, E>, xs: seq<A>): (k: nat)
    ensures k <= |xs|
    ensures forall i :: 0 <= i < k ==> step(xs[i], i).Ok?
    ensures k < |xs| ==> step(xs[k], k).Err?
    decreases |xs|
  {
    if xs == [] then 0
    else
      var n := |xs| - 1;
      var k := FirstFailure(step, xs[..n]);
      if k < n || step(xs[n], n).Ok? then (if k < n then k else |xs|) else n
  }

  /**
   * The loop succeeds exactly when step succeeds on every element, and then yields one result per
   * element, in order; otherwise it fails with the failure of the first element step fails on.
   */
  lemma {:induction false} MapUntilErrorSpec<A, B, E>(step: (A, nat) -> Result<B, E>, xs: seq<A>)
    ensures MapUntilError(step, xs).Ok? <==> FirstFailure(step, xs) == |xs|
    ensures MapUntilError(step, xs).Ok? ==>
      var ys := MapUntilError(step, xs).value;
      |ys| == |xs| && forall i :: 0 <= i < |xs| ==> ys[i] == step(xs[i], i).value
    ensures MapUntilError(step, xs).Err? ==>
      var k := FirstFailure(step, xs);
      k < |xs| && MapUntilError(step, xs).error == step(xs[k], k).error
    decreases |xs|
  {
    if xs != [] {
      var n := |xs| - 1;
      var front := xs[..n];
      MapUntilErrorSpec(step, front);
      assert forall i :: 0 <= i < n ==> front[i] == xs[i];
      var rest := MapUntilError(step, front);
      if rest.Ok? && step(xs[n], n).Ok? {
        var ys := rest.value + [step(xs[n], n).value];
        forall i | 0 <= i < |xs|
          ensures ys[i] == step(xs[i], i).value
        {
          if i < n {
            assert ys[i] == rest.value[i];
          }
        }
      }
    }
  }

  /** Two loop bodies that agree on every element give the same loop. */
  lemma {:induction false} MapUntilErrorAgree<A, B, E>(step: (A, nat) -> Result<B, E>, other: (A, nat) -> Result<B, E>, xs: seq<A>)
    requires forall i :: 0 <= i < |xs| ==> step(xs[i], i) == other(xs[i], i)
    ensures MapUntilError(step, xs) == MapUntilError(other, xs)
    decreases |xs|
  {
    if xs != [] {
      var n := |xs| - 1;
      var front := xs[..n];
      assert forall i :: 0 <= i < n ==> front[i] == xs[i];
      MapUntilErrorAgree(step, other, front);
    }
  }
}
