/** What `update_selected` does to the tree, stated on the model. */
module SelectFacts {
  import opened TreeModel

  /** Every node of `t`, leaves' children included, has selection flag `v`. */
  predicate AllSelected(t: Tree, v: bool)
  {
    t.selected == v && forall j :: 0 <= j < |t.children| ==> AllSelected(t.children[j], v)
  }

  /** The two trees differ at most in their selection flags. */
  predicate SameButSelection(a: Tree, b: Tree)
  {
    a.name == b.name && a.info == b.info && a.lastResult == b.lastResult && a.stats == b.stats &&
    |a.children| == |b.children| &&
    forall j :: 0 <= j < |a.children| ==> SameButSelection(a.children[j], b.children[j])
  }

  /** The recursive update reaches every node below, leaves and their children alike. */
  lemma {:induction false} SelectAll(t: Tree, v: bool)
    ensures AllSelected(SelectTree(t, v, true), v)
  {
    forall j | 0 <= j < |t.children|
      ensures AllSelected(SelectTree(t, v, true).children[j], v)
    {
      SelectAll(t.children[j], v);
    }
  }

  /** Selection changes nothing but selection flags. */
  lemma {:induction false} SelectOnlyFlags(t: Tree, v: bool, recurse: bool)
    ensures SameButSelection(SelectTree(t, v, recurse), t)
  {
    SameReflexive(t);
    if recurse {
      forall j | 0 <= j < |t.children|
        ensures SameButSelection(SelectTree(t, v, true).children[j], t.children[j])
      {
        SelectOnlyFlags(t.children[j], v, true);
      }
    }
  }

  lemma {:induction false} SameReflexive(t: Tree)
    ensures SameButSelection(t, t)
  {
    forall j | 0 <= j < |t.children|
      ensures SameButSelection(t.children[j], t.children[j])
    {
      SameReflexive(t.children[j]);
    }
  }

  /** Without recursion only the node's own flag is set; its subtree stays as it was. */
  lemma SelectShallow(t: Tree, v: bool)
    ensures SelectTree(t, v, false) == t.(selected := v)
    ensures SelectTree(t, v, false).children == t.children
  {
  }

  /** Selecting twice with the same arguments is selecting once. */
  lemma {:induction false} SelectIdempotent(t: Tree, v: bool, recurse: bool)
    ensures SelectTree(SelectTree(t, v, recurse), v, recurse) == SelectTree(t, v, recurse)
  {
    if recurse {
      var once := SelectTree(t, v, true);
      forall j | 0 <= j < |t.children|
        ensures SelectTree(once.children[j], v, true) == once.children[j]
      {
        SelectIdempotent(t.children[j], v, true);
      }
      assert SelectTree(once, v, true).children == once.children;
    }
  }

  /** A later recursive update with another value overrides an earlier one completely. */
  lemma {:induction false} SelectOverrides(t: Tree, v: bool, w: bool)
    ensures SelectTree(SelectTree(t, v, true), w, true) == SelectTree(t, w, true)
  {
    var a := SelectTree(SelectTree(t, v, true), w, true);
    var b := SelectTree(t, w, true);
    forall j | 0 <= j < |t.children|
      ensures a.children[j] == b.children[j]
    {
      SelectOverrides(t.children[j], v, w);
    }
    assert a.children == b.children;
  }
}
