/** Runs in which every result is made from an input and the result before it. */
module Iteration {

  function Iterate<A, B>(start: B, xs: seq<A>, step: (A, B) -> B): (results: seq<B>)
    requires |xs| > 0
    ensures |results| == |xs|
  {
    var n := |xs| - 1;
    if n == 0 then [start]
    else
      var before := Iterate(start, xs[..n], step);
      before + [step(xs[n], before[n - 1])]
  }

  /** If p holds of the start, and a step from a result with p gives one with p that is related
      by q to the one before, then p holds of all results and q of any two in a row. */
  lemma {:induction false} Invariant<A(!new), B(!new)>(
      start: B, xs: seq<A>, step: (A, B) -> B, p: (B, A) -> bool, q: (B, A, B, A) -> bool)
    requires |xs| > 0 && p(start, xs[0])
    requires forall b, k | 0 < k < |xs| && p(b, xs[k - 1]) ::
               p(step(xs[k], b), xs[k]) && q(step(xs[k], b), xs[k], b, xs[k - 1])
    ensures var results := Iterate(start, xs, step);
      && (forall k | 0 <= k < |xs| :: p(results[k], xs[k]))
      && (forall k | 0 < k < |xs| :: q(results[k], xs[k], results[k - 1], xs[k - 1]))
    decreases |xs|
  {
    var n := |xs| - 1;
    if n > 0 {
      var ys := xs[..n];
      assert forall k | 0 <= k < n :: ys[k] == xs[k];
      Invariant(start, ys, step, p, q);
      assert p(Iterate(start, ys, step)[n - 1], ys[n - 1]);
    }
  }
}
