/**
 * `items.forEach(item => out.push(f(item)))` where `f` may throw: the
 * results in order, or the first failure, which ends the walk.
 */
module Traverse {
  import opened Wrappers

  /** Item `k` is the first on which `f` fails. */
  predicate FirstFailure<A, B, E>(xs: seq<A>, f: A -> Result<B, E>, k: int)
  {
    0 <= k < |xs| && f(xs[k]).Err? && forall i :: 0 <= i < k ==> f(xs[i]).Ok?
  }

  /** Applies `f` to each item in turn; the first failure is the result. */
  function MapAll<A, B, E(==)>(xs: seq<A>, f: A -> Result<B, E>): (r: Result<seq<B>, E>)
    ensures r.Ok? <==> forall i :: 0 <= i < |xs| ==> f(xs[i]).Ok?
    ensures r.Ok? ==> |r.value| == |xs| && forall i :: 0 <= i < |xs| ==> r.value[i] == f(xs[i]).value
    ensures r.Err? ==> exists k :: FirstFailure(xs, f, k) && r.error == f(xs[k]).error
  {
    if |xs| == 0 then Ok([])
    else
      match f(xs[0])
      case Err(e) => Err(e)
      case Ok(first) =>
        match MapAll(xs[1..], f)
        case Err(e) =>
          assert forall i :: 1 <= i < |xs| ==> xs[i] == xs[1..][i - 1];
          assert exists k :: FirstFailure(xs, f, k) && e == f(xs[k]).error by {
            var k :| FirstFailure(xs[1..], f, k) && e == f(xs[1..][k]).error;
            assert FirstFailure(xs, f, k + 1);
          }
          Err(e)
        case Ok(rest) =>
          assert forall i :: 1 <= i < |xs| ==> xs[i] == xs[1..][i - 1];
          Ok([first] + rest)
  }

  /**
   * When `g` takes each result of `f` to the matching item of `zs`, walking
   * `g` over the results of walking `f` gives `zs`.
   */
  lemma MapAllThen<A, B, C, E>(xs: seq<A>, f: A -> Result<B, E>, g: B -> Result<C, E>, zs: seq<C>)
    requires |zs| == |xs|
    requires forall i :: 0 <= i < |xs| ==> f(xs[i]).Ok? && g(f(xs[i]).value) == Ok(zs[i])
    ensures MapAll(xs, f).Ok?
    ensures MapAll(MapAll(xs, f).value, g) == Ok(zs)
  {
    var ys := MapAll(xs, f).value;
    assert forall i :: 0 <= i < |ys| ==> g(ys[i]).Ok?;
    var rs := MapAll(ys, g).value;
    forall i | 0 <= i < |xs| ensures rs[i] == zs[i] {
      assert ys[i] == f(xs[i]).value;
    }
    assert rs == zs;
  }
}
