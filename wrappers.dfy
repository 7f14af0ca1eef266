/** Option, Result and Outcome: the model's stand-ins for Python's None and
    for the exceptions the source raises; and the list comprehension whose
    element expression may raise. */
module Wrappers {

  datatype Option<+T> = None | Some(value: T)

  datatype Result<+T, +E> = Success(value: T) | Failure(error: E)

  datatype Outcome<+E> = Pass | Fail(error: E)

  /** `[f(x) for x in xs]` where `f` may raise: the first element that fails
      raises its error, otherwise every result, in order. */
  function Collect<A, B, E>(f: A -> Result<B, E>, xs: seq<A>): (r: Result<seq<B>, E>)
    ensures r.Success? ==> |r.value| == |xs|
  {
    if |xs| == 0 then Success([])
    else
      var head, tail := f(xs[0]), Collect(f, xs[1..]);
      if head.Failure? then Failure(head.error)
      else if tail.Failure? then Failure(tail.error)
      else Success([head.value] + tail.value)
  }

  /** The comprehension succeeds exactly when every element does, and then
      holds each element's result at the element's place. */
  lemma {:induction false} CollectSuccess<A, B, E>(f: A -> Result<B, E>, xs: seq<A>)
    ensures (forall k :: 0 <= k < |xs| ==> f(xs[k]).Success?) <==> Collect(f, xs).Success?
    ensures Collect(f, xs).Success? ==>
      forall k :: 0 <= k < |xs| ==> f(xs[k]) == Success(Collect(f, xs).value[k])
  {
    if |xs| > 0 {
      var tail := xs[1..];
      CollectSuccess(f, tail);
      assert forall k :: 1 <= k < |xs| ==> xs[k] == tail[k - 1];
      var r := Collect(f, xs);
      if r.Success? {
        var vs := r.value;
        assert vs[1..] == Collect(f, tail).value;
        forall k | 0 <= k < |xs|
          ensures f(xs[k]) == Success(vs[k])
        {
          if k > 0 {
            assert xs[k] == tail[k - 1] && vs[k] == vs[1..][k - 1];
          }
        }
      }
    }
  }

  /** A failing comprehension raises the error of its first failing
      element. */
  lemma {:induction false} CollectFailure<A, B, E>(f: A -> Result<B, E>, xs: seq<A>)
    requires Collect(f, xs).Failure?
    ensures exists i :: (0 <= i < |xs| && f(xs[i]) == Failure(Collect(f, xs).error)
      && forall k :: 0 <= k < i ==> f(xs[k]).Success?)
  {
    var tail := xs[1..];
    if f(xs[0]).Success? {
      CollectFailure(f, tail);
      var i :| (0 <= i < |tail| && f(tail[i]) == Failure(Collect(f, tail).error)
        && forall k :: 0 <= k < i ==> f(tail[k]).Success?);
      assert forall k :: 1 <= k < i + 1 ==> xs[k] == tail[k - 1];
      assert xs[i + 1] == tail[i];
    } else {
      assert f(xs[0]) == Failure(Collect(f, xs).error);
    }
  }

  /** Elements with known results give exactly those results. */
  lemma CollectOf<A, B, E>(f: A -> Result<B, E>, xs: seq<A>, vs: seq<B>)
    requires |xs| == |vs|
    requires forall k :: 0 <= k < |xs| ==> f(xs[k]) == Success(vs[k])
    ensures Collect(f, xs) == Success(vs)
  {
    CollectSuccess(f, xs);
    var r := Collect(f, xs).value;
    assert forall k :: 0 <= k < |vs| ==> r[k] == vs[k];
    assert r == vs;
  }
}
