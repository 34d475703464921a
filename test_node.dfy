/**
 * `test_node`: one node of the test tree as a heap object whose fields the
 * operations update in place. `model` is the node's abstract value and
 * `Repr` the set of objects of its subtree; `Valid()` ties both to the real
 * fields, so each method is specified by a function on `model`.
 */
module TestNodes {
  import opened Upptest
  import opened Stats
  import opened TreeModel

  class TestNode {
    var children: seq<TestNode>
    var stats: NodeStats
    const name: string
    const testInfo: Option<Info>
    var lastResult: TestResult
    var selected: bool

    ghost var model: Tree
    ghost var Repr: set<object>

    /**
     * The subtree is a proper tree: each child owns a footprint of its own,
     * disjoint from its siblings' and not containing this node, and the model
     * mirrors the fields, child by child.
     */
    ghost predicate Valid()
      reads this, Repr
      ensures Valid() ==> this in Repr
      decreases Repr
    {
      this in Repr &&
      model == Tree(name, testInfo, lastResult, selected, stats, model.children) &&
      |model.children| == |children| &&
      (forall k :: 0 <= k < |children| ==>
        children[k] in Repr && children[k].Repr <= Repr && this !in children[k].Repr &&
        children[k].model == model.children[k] && children[k].Valid()) &&
      (forall j, k :: 0 <= j < k < |children| ==> children[j].Repr !! children[k].Repr)
    }

    /** A new node with no parent-visible state: unselected, zero stats, nothing run, no children. */
    constructor (n: string, i: Option<Info>)
      ensures Valid() && fresh(Repr) && Repr == {this}
      ensures name == n && testInfo == i
      ensures model == NewNode(n, i)
    {
      name, testInfo := n, i;
      children, stats, lastResult, selected := [], Zero, NotRunResult, false;
      model := NewNode(n, i);
      Repr := {this};
    }

    /** `add_child(name)`: append a new category child. */
    method AddCategory(n: string) returns (node: TestNode)
      requires Valid()
      modifies this
      ensures Valid() && fresh(node) && Repr == old(Repr) + {node}
      ensures children == old(children) + [node]
      ensures node.model == Category(n) && node.name == n && node.testInfo == None
      ensures node.Valid() && node.Repr == {node}
      ensures model == old(model).(children := old(model).children + [Category(n)])
    {
      node := new TestNode(n, None);
      children := children + [node];
      Repr := Repr + {node};
      model := model.(children := model.children + [node.model]);
    }

    /** `add_child(info)`: append a new leaf for test `i`, named after it. */
    method AddTest(i: Info) returns (node: TestNode)
      requires Valid()
      modifies this
      ensures Valid() && fresh(node) && Repr == old(Repr) + {node}
      ensures children == old(children) + [node]
      ensures node.model == Leaf(i) && node.name == i.name && node.testInfo == Some(i)
      ensures model == old(model).(children := old(model).children + [Leaf(i)])
    {
      node := new TestNode(i.name, Some(i));
      children := children + [node];
      Repr := Repr + {node};
      model := model.(children := model.children + [node.model]);
    }

    /**
     * A change confined to child `k`'s footprint leaves every other child as
     * it was: same footprint, same model, still valid.
     */
    twostate lemma SiblingsKept(k: nat)
      requires unchanged(this) && k < |children|
      requires forall j :: 0 <= j < |children| ==> old(children[j].Valid()) && old(children[j].Repr) <= Repr
      requires forall i, j :: 0 <= i < j < |children| ==> old(children[i].Repr) !! old(children[j].Repr)
      requires unchanged(Repr - old(children[k].Repr))
      ensures forall j :: 0 <= j < |children| && j != k ==>
        children[j].Valid() && children[j].Repr == old(children[j].Repr) && children[j].model == old(children[j].model)
    {
    }

    /**
     * After a change confined to child `k`'s footprint, where that child
     * stays valid and only gains fresh objects, this node is valid again once
     * its model takes the child's new model and its footprint the new objects.
     */
    twostate lemma Readopt(k: nat)
      requires old(Valid()) && k < |old(children)|
      requires children == old(children) && lastResult == old(lastResult) && selected == old(selected) && stats == old(stats)
      requires unchanged(old(Repr) - old(children[k].Repr) - {this})
      requires children[k].Valid() && old(children[k].Repr) <= children[k].Repr && this !in children[k].Repr
      requires fresh(children[k].Repr - old(children[k].Repr))
      requires model == old(model).(children := old(model).children[k := children[k].model])
      requires Repr == old(Repr) + children[k].Repr
      ensures Valid()
    {
    }

    /**
     * `update_stats`: a leaf reports its own result and changes nothing; a
     * category sums what its children report, caches it and returns it.
     */
    method UpdateStats() returns (n: NodeStats)
      requires Valid()
      modifies Repr
      ensures Valid() && Repr == old(Repr)
      ensures n == StatsOf(old(model))
      ensures model == Refresh(old(model))
      decreases Repr, 1
    {
      if testInfo.Some? {
        n := LeafStats(lastResult.status);
        return;
      }
      n := SumChildStats();
      stats := n;
      model := Refresh(old(model));
    }

    /** The loop of `update_stats`: `n += child->update_stats()` for each child in order. */
    method SumChildStats() returns (n: NodeStats)
      requires Valid()
      modifies Repr - {this}
      ensures unchanged(this)
      ensures forall j :: 0 <= j < |children| ==>
        children[j].Repr == old(children[j].Repr) && children[j].Valid() && children[j].model == Refresh(old(model).children[j])
      ensures n == SumStats(old(model).children, |children|)
      decreases Repr, 0
    {
      n := Zero;
      var k := 0;
      while k < |children|
        invariant 0 <= k <= |children|
        invariant unchanged(this)
        invariant forall j :: 0 <= j < |children| ==>
          children[j].Repr == old(children[j].Repr) && children[j].Valid() &&
          children[j].model == if j < k then Refresh(old(model).children[j]) else old(model).children[j]
        invariant n == SumStats(old(model).children, k)
      {
        label before:
        var s := children[k].UpdateStats();
        SiblingsKept@before(k);
        n := n.Plus(s);
        k := k + 1;
      }
    }

    /**
     * `update_selected(v, recurse)`: set this node's flag and, when
     * `recurse` (the default), every descendant's.
     */
    method UpdateSelected(v: bool, recurse: bool := true)
      requires Valid()
      modifies Repr
      ensures Valid() && Repr == old(Repr)
      ensures model == SelectTree(old(model), v, recurse)
      decreases Repr, 1
    {
      selected := v;
      model := model.(selected := v);
      if recurse {
        SelectChildren(v);
        model := SelectTree(old(model), v, true);
      }
    }

    /** The loop of `update_selected`: `child->update_selected(v, true)` for each child. */
    method SelectChildren(v: bool)
      requires Valid()
      modifies Repr - {this}
      ensures unchanged(this)
      ensures forall j :: 0 <= j < |children| ==>
        children[j].Repr == old(children[j].Repr) && children[j].Valid() && children[j].model == SelectTree(old(model).children[j], v, true)
      decreases Repr, 0
    {
      var k := 0;
      while k < |children|
        invariant 0 <= k <= |children|
        invariant unchanged(this)
        invariant forall j :: 0 <= j < |children| ==>
          children[j].Repr == old(children[j].Repr) && children[j].Valid() &&
          children[j].model == if j < k then SelectTree(old(model).children[j], v, true) else old(model).children[j]
      {
        label before:
        children[k].UpdateSelected(v);
        SiblingsKept@before(k);
        k := k + 1;
      }
    }
  }
}
