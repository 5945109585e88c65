/**
 * A pass over a list of nodes that rewrites them one by one, in order, and stops at
 * the first whose rewrite raises. The rewriter's loops over the where predicates and
 * over the order clauses of the compiled query both work this way: each edits the
 * node it is at, so the nodes before a raise stay edited and the ones after it are
 * left as they were.
 */
module Passes {
  import opened Wrappers

  /** One node's rewrite: the node afterwards, and what the rewrite raised, if anything. */
  datatype Step<T, E> = Step(item: T, raised: Option<E>)

  /** The nodes after a pass, and what the pass raised, if anything. */
  datatype Pass<T, E> = Pass(items: seq<T>, raised: Option<E>)

  function RunPass<T, E>(step: T -> Step<T, E>, xs: seq<T>): (r: Pass<T, E>)
    ensures |r.items| == |xs|
    decreases |xs|
  {
    if |xs| == 0 then Pass([], None)
    else
      var first := step(xs[0]);
      if first.raised.Some? then Pass([first.item] + xs[1..], first.raised)
      else
        var rest := RunPass(step, xs[1..]);
        Pass([first.item] + rest.items, rest.raised)
  }

  /**
   * A pass raises exactly when the step raises on one of the nodes; when it does not,
   * every node is replaced by its own rewrite.
   */
  lemma {:induction false} RunPassRaisesIff<T, E>(step: T -> Step<T, E>, xs: seq<T>)
    ensures RunPass(step, xs).raised.None? <==> forall i :: 0 <= i < |xs| ==> step(xs[i]).raised.None?
    ensures RunPass(step, xs).raised.None? ==>
      forall i :: 0 <= i < |xs| ==> RunPass(step, xs).items[i] == step(xs[i]).item
    decreases |xs|
  {
    if |xs| > 0 {
      RunPassRaisesIff(step, xs[1..]);
      assert forall i :: 0 < i < |xs| ==> xs[i] == xs[1..][i - 1];
    }
  }

  /**
   * The whole pass, given where it stops: when the first `i` nodes rewrite without a
   * raise and node `i`, if there is one, raises, then the nodes up to and including
   * node `i` are rewritten, the ones after it are kept, and the pass raises what node
   * `i` raised.
   */
  lemma {:induction false} RunPassUpTo<T, E>(step: T -> Step<T, E>, xs: seq<T>, i: nat)
    requires i <= |xs|
    requires forall k :: 0 <= k < i ==> step(xs[k]).raised.None?
    requires i < |xs| ==> step(xs[i]).raised.Some?
    ensures RunPass(step, xs).raised == if i < |xs| then step(xs[i]).raised else None
    ensures forall k :: 0 <= k < |xs| ==> RunPass(step, xs).items[k] == if k <= i then step(xs[k]).item else xs[k]
    decreases |xs|
  {
    if |xs| > 0 {
      assert forall k :: 0 < k < |xs| ==> xs[1..][k - 1] == xs[k];
      if i > 0 {
        RunPassUpTo(step, xs[1..], i - 1);
      }
    }
  }
}
