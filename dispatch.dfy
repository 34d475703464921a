/**
 * `run_selected`: a depth-first walk that hands each chosen leaf to the
 * runner and stores what it reports on the leaf.
 */
module Dispatch {
  import opened Upptest
  import opened TreeModel
  import opened TestNodes

  /**
   * `run_selected(node, ignoreSelected)`: a category recurses into its
   * children in order; a leaf is run when it is selected or selection is
   * ignored, and its result is stored; any other leaf is left alone. As
   * `run_selected` does, selection is respected unless the caller says otherwise.
   */
  method RunSelected(node: TestNode, runner: Runner, ignoreSelected: bool := false)
    requires node.Valid() && runner !in node.Repr
    modifies node.Repr, runner
    ensures node.Valid() && node.Repr == old(node.Repr)
    ensures node.model == RunTree(old(node.model), ignoreSelected, runner.outcome)
    ensures runner.calls == old(runner.calls) + ToRun(old(node.model), ignoreSelected)
    decreases node.Repr, 1
  {
    if node.testInfo.None? {
      RunChildren(node, ignoreSelected, runner);
      node.model := RunTree(old(node.model), ignoreSelected, runner.outcome);
    } else if ignoreSelected || node.selected {
      var res := runner.Run(node.testInfo.value);
      node.lastResult := res;
      node.model := node.model.(lastResult := res);
    }
  }

  /** The loop of `run_selected` over a category's children. */
  method RunChildren(node: TestNode, ignoreSelected: bool, runner: Runner)
    requires node.Valid() && runner !in node.Repr
    modifies node.Repr - {node}, runner
    ensures unchanged(node)
    ensures forall j :: 0 <= j < |node.children| ==>
      node.children[j].Repr == old(node.children[j].Repr) && node.children[j].Valid() &&
      node.children[j].model == RunTree(old(node.model).children[j], ignoreSelected, runner.outcome)
    ensures runner.calls == old(runner.calls) + ToRunAll(old(node.model).children, |node.children|, ignoreSelected)
    decreases node.Repr, 0
  {
    var k := 0;
    ghost var cs := node.model.children;
    ghost var calls0 := runner.calls;
    while k < |node.children|
      invariant 0 <= k <= |node.children| == |cs|
      invariant unchanged(node)
      invariant forall j :: 0 <= j < |node.children| ==>
        node.children[j].Repr == old(node.children[j].Repr) && node.children[j].Valid() &&
        node.children[j].model == if j < k then RunTree(cs[j], ignoreSelected, runner.outcome) else cs[j]
      invariant runner.calls == calls0 + ToRunAll(cs, k, ignoreSelected)
    {
      label before:
      RunSelected(node.children[k], runner, ignoreSelected);
      node.SiblingsKept@before(k);
      AppendAssoc(calls0, ToRunAll(cs, k, ignoreSelected), ToRun(cs[k], ignoreSelected));
      k := k + 1;
    }
  }

  lemma AppendAssoc<T>(a: seq<T>, b: seq<T>, c: seq<T>)
    ensures (a + b) + c == a + (b + c)
  {
  }
}
