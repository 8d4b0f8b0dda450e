/** MapWithError from slices.go: a map over a sequence that stops at the
    first element the function fails on. */
module Slices {
  import opened Wrappers

  /** Applies `f` to the elements in order. On success the result holds every
      image in place; on the first failure that error is returned with no
      partial output. `applied` counts the calls made to `f`: none is made
      after the first failure. */
  method MapWithError<T, U, E>(xs: seq<T>, f: T -> Result<U, E>) returns (r: Result<seq<U>, E>, applied: nat)
    ensures r.Success? <==> forall i :: 0 <= i < |xs| ==> f(xs[i]).Success?
    ensures r.Success? ==> |r.value| == |xs| && applied == |xs|
    ensures r.Success? ==> forall i :: 0 <= i < |xs| ==> r.value[i] == f(xs[i]).value
    ensures r.Failure? ==> 1 <= applied <= |xs| && f(xs[applied - 1]) == Failure(r.error)
    ensures r.Failure? ==> forall i :: 0 <= i < applied - 1 ==> f(xs[i]).Success?
  {
    var out: seq<U> := [];
    var i := 0;
    while i < |xs|
      invariant 0 <= i <= |xs| && |out| == i
      invariant forall j :: 0 <= j < i ==> f(xs[j]).Success? && out[j] == f(xs[j]).value
    {
      var v := f(xs[i]);
      if v.Failure? {
        return Failure(v.error), i + 1;
      }
      out := out + [v.value];
      i := i + 1;
    }
    return Success(out), |xs|;
  }
}
