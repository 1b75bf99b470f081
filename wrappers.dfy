/** Option and Result, and a first-failure traversal of a sequence. */
module Wrappers {

  datatype Option<+T> = None | Some(value: T)

  datatype Result<+T, +E> = Success(value: T) | Failure(error: E)

  /** Applies f to the elements of xs in order and stops at the first failure,
      the shape of a Go loop that appends on success and returns on error. */
  function Traverse<A, B, E>(xs: seq<A>, f: A -> Result<B, E>): (r: Result<seq<B>, E>)
    ensures r.Success? ==> |r.value| == |xs|
    decreases |xs|
  {
    if xs == [] then Success([])
    else
      match Traverse(xs[..|xs| - 1], f)
      case Failure(e) => Failure(e)
      case Success(ys) =>
        match f(xs[|xs| - 1])
        case Failure(e) => Failure(e)
        case Success(y) => Success(ys + [y])
  }

  /** Traversal succeeds exactly when every element succeeds, and then it
      collects the results element by element. */
  lemma {:induction false} TraverseSucceeds<A, B, E>(xs: seq<A>, f: A -> Result<B, E>)
    ensures Traverse(xs, f).Success? <==> forall i :: 0 <= i < |xs| ==> f(xs[i]).Success?
    ensures Traverse(xs, f).Success? ==>
              forall i :: 0 <= i < |xs| ==> Traverse(xs, f).value[i] == f(xs[i]).value
    decreases |xs|
  {
    if xs != [] {
      var init := xs[..|xs| - 1];
      TraverseSucceeds(init, f);
      assert forall i :: 0 <= i < |init| ==> init[i] == xs[i];
    }
  }

  /** A failed traversal reports the failure of the first element that fails. */
  lemma {:induction false} TraverseFirstFailure<A, B, E>(xs: seq<A>, f: A -> Result<B, E>)
    requires Traverse(xs, f).Failure?
    ensures exists k :: 0 <= k < |xs| && f(xs[k]) == Failure(Traverse(xs, f).error) &&
                        forall i :: 0 <= i < k ==> f(xs[i]).Success?
    decreases |xs|
  {
    var init := xs[..|xs| - 1];
    assert forall i :: 0 <= i < |init| ==> init[i] == xs[i];
    if Traverse(init, f).Failure? {
      TraverseFirstFailure(init, f);
    } else {
      TraverseSucceeds(init, f);
      assert f(xs[|xs| - 1]) == Failure(Traverse(xs, f).error);
    }
  }

  /** Once a prefix fails, the whole traversal fails the same way. */
  lemma {:induction false} TraversePrefixFailure<A, B, E>(xs: seq<A>, n: nat, f: A -> Result<B, E>)
    requires n <= |xs| && Traverse(xs[..n], f).Failure?
    ensures Traverse(xs, f) == Traverse(xs[..n], f)
    decreases |xs|
  {
    if n < |xs| {
      var init := xs[..|xs| - 1];
      assert init[..n] == xs[..n];
      TraversePrefixFailure(init, n, f);
    } else {
      assert xs[..n] == xs;
    }
  }

  /** One more successful element extends a successful traversal of a prefix. */
  lemma TraverseExtend<A, B, E>(xs: seq<A>, i: nat, f: A -> Result<B, E>, ys: seq<B>)
    requires i < |xs| && Traverse(xs[..i], f) == Success(ys) && f(xs[i]).Success?
    ensures Traverse(xs[..i + 1], f) == Success(ys + [f(xs[i]).value])
  {
    assert xs[..i + 1][..i] == xs[..i];
  }

  /** The first failing element after a successful prefix decides the traversal. */
  lemma TraverseStop<A, B, E>(xs: seq<A>, i: nat, f: A -> Result<B, E>)
    requires i < |xs| && Traverse(xs[..i], f).Success? && f(xs[i]).Failure?
    ensures Traverse(xs, f) == Failure(f(xs[i]).error)
  {
    assert xs[..i + 1][..i] == xs[..i];
    TraversePrefixFailure(xs, i + 1, f);
  }
}
