/**
 * Order of the tests in the tree `create_tree` builds: under every category
 * path, the leaves hang in the order their tests were given.
 */
module OrderFacts {
  import opened Upptest
  import opened TreeModel
  import opened InsertFacts
  import CategoryPath

  /** The descriptors of the leaves among the first `k` children, in child order. */
  function LeafInfos(cs: seq<Tree>, k: nat): seq<Info>
    requires k <= |cs|
  {
    if k == 0 then []
    else LeafInfos(cs, k - 1) + (if cs[k - 1].info.Some? then [cs[k - 1].info.value] else [])
  }

  /** The leaves directly under the node that path `p` leads to, or none if it leads nowhere. */
  function LeavesAt(t: Tree, p: seq<string>): seq<Info>
  {
    match Follow(t, p)
    case None => []
    case Some(n) => LeafInfos(n.children, |n.children|)
  }

  /** The tests, in input order, whose category splits into path `p`. */
  function Matching(tests: seq<Info>, p: seq<string>, sep: char): seq<Info>
  {
    if tests == [] then []
    else
      var n := |tests| - 1;
      Matching(tests[..n], p, sep) + (if CategoryPath.Segments(tests[n].category, sep) == p then [tests[n]] else [])
  }

  lemma {:induction false} LeafInfosPrefix(cs: seq<Tree>, ds: seq<Tree>, k: nat)
    requires k <= |cs| && k <= |ds| && cs[..k] == ds[..k]
    ensures LeafInfos(cs, k) == LeafInfos(ds, k)
  {
    if k > 0 {
      assert cs[k - 1] == cs[..k][k - 1] == ds[..k][k - 1] == ds[k - 1];
      assert cs[..k - 1] == cs[..k][..k - 1];
      assert ds[..k - 1] == ds[..k][..k - 1];
      LeafInfosPrefix(cs, ds, k - 1);
    }
  }

  lemma LeafInfosAppend(cs: seq<Tree>, x: Tree)
    ensures LeafInfos(cs + [x], |cs| + 1) == LeafInfos(cs, |cs|) + (if x.info.Some? then [x.info.value] else [])
  {
    assert (cs + [x])[..|cs|] == cs[..|cs|];
    LeafInfosPrefix(cs + [x], cs, |cs|);
  }

  /** Replacing a child by one holding the same descriptor keeps the leaf order. */
  lemma {:induction false} LeafInfosUpdate(cs: seq<Tree>, j: nat, x: Tree, k: nat)
    requires j < |cs| && k <= |cs| && x.info == cs[j].info
    ensures LeafInfos(cs[j := x], k) == LeafInfos(cs, k)
  {
    if k > 0 {
      LeafInfosUpdate(cs, j, x, k - 1);
      assert cs[j := x][k - 1].info == cs[k - 1].info;
    }
  }

  /** Renaming nothing leaves the first match where it was. */
  lemma {:induction false} FirstMatchSameNames(cs: seq<Tree>, ds: seq<Tree>, n: string)
    requires |cs| == |ds| && forall j :: 0 <= j < |cs| ==> cs[j].name == ds[j].name
    ensures FirstMatch(cs, n) == FirstMatch(ds, n)
  {
    if cs != [] && cs[0].name != n {
      FirstMatchSameNames(cs[1..], ds[1..], n);
    }
  }

  /** Appending a child moves no earlier match; without one, the new child is tried last. */
  lemma {:induction false} FirstMatchSnoc(cs: seq<Tree>, x: Tree, n: string)
    ensures FirstMatch(cs, n) < |cs| ==> FirstMatch(cs + [x], n) == FirstMatch(cs, n)
    ensures FirstMatch(cs, n) == |cs| ==> FirstMatch(cs + [x], n) == if x.name == n then |cs| else |cs| + 1
  {
    if cs != [] {
      assert (cs + [x])[1..] == cs[1..] + [x];
      FirstMatchSnoc(cs[1..], x, n);
    }
  }

  /** A node without children has no leaves under any path. */
  lemma ChildlessHasNoLeaves(t: Tree, p: seq<string>)
    requires t.children == []
    ensures LeavesAt(t, p) == []
  {
  }

  /**
   * `add_node(t, i, segs)` appends `i` to the leaves under path `segs` and
   * changes the leaves under no other path.
   */
  lemma {:induction false} InsertLeavesAt(t: Tree, i: Info, segs: seq<string>, p: seq<string>)
    ensures LeavesAt(Insert(t, i, segs), p) == LeavesAt(t, p) + (if p == segs then [i] else [])
    decreases |p|, 1
  {
    if segs == [] {
      AppendLeafLeavesAt(t, i, p);
    } else if p == [] {
      DescendKeepsOwnLeaves(t, i, segs);
    } else if p[0] == segs[0] {
      DescendSamePath(t, i, segs, p);
    } else {
      DescendOtherPath(t, i, segs, p);
    }
  }

  /** The last step of `add_node`: the new leaf is the last leaf here and nowhere else. */
  lemma AppendLeafLeavesAt(t: Tree, i: Info, p: seq<string>)
    ensures LeavesAt(Insert(t, i, []), p) == LeavesAt(t, p) + (if p == [] then [i] else [])
  {
    var r := Insert(t, i, []);
    var cs := t.children;
    if p == [] {
      LeafInfosAppend(cs, Leaf(i));
    } else {
      FirstMatchSnoc(cs, Leaf(i), p[0]);
      var k0 := FirstMatch(cs, p[0]);
      if k0 < |cs| {
        assert r.children[k0] == cs[k0];
      } else if FirstMatch(r.children, p[0]) == |cs| {
        ChildlessHasNoLeaves(Leaf(i), p[1..]);
      }
    }
  }

  /** Descending into a child (found or new) adds no leaf directly here. */
  lemma DescendKeepsOwnLeaves(t: Tree, i: Info, segs: seq<string>)
    requires segs != []
    ensures LeavesAt(Insert(t, i, segs), []) == LeavesAt(t, [])
  {
    var cs := t.children;
    var k := FirstMatch(cs, segs[0]);
    var t' := if k == |cs| then t.(children := cs + [Category(segs[0])]) else t;
    var c := Insert(t'.children[k], i, segs[1..]);
    InsertKeepsHead(t'.children[k], i, segs[1..]);
    LeafInfosUpdate(t'.children, k, c, |t'.children|);
    if k == |cs| {
      LeafInfosAppend(cs, Category(segs[0]));
    }
  }

  /** Following the path `add_node` descends along leads into the child it changed. */
  lemma {:induction false} DescendSamePath(t: Tree, i: Info, segs: seq<string>, p: seq<string>)
    requires segs != [] && p != [] && p[0] == segs[0]
    ensures LeavesAt(Insert(t, i, segs), p) == LeavesAt(t, p) + (if p == segs then [i] else [])
    decreases |p|, 0
  {
    var r := Insert(t, i, segs);
    var cs := t.children;
    var k := FirstMatch(cs, segs[0]);
    var t' := if k == |cs| then t.(children := cs + [Category(segs[0])]) else t;
    var c := Insert(t'.children[k], i, segs[1..]);
    assert r.children == t'.children[k := c];
    InsertKeepsHead(t'.children[k], i, segs[1..]);
    FirstMatchSameNames(r.children, t'.children, p[0]);
    if k == |cs| {
      FirstMatchSnoc(cs, Category(segs[0]), segs[0]);
      ChildlessHasNoLeaves(Category(segs[0]), p[1..]);
    }
    InsertLeavesAt(t'.children[k], i, segs[1..], p[1..]);
    assert (p == segs) == (p[1..] == segs[1..]);
  }

  /** A path that leaves the one `add_node` descends along sees the same leaves. */
  lemma DescendOtherPath(t: Tree, i: Info, segs: seq<string>, p: seq<string>)
    requires segs != [] && p != [] && p[0] != segs[0]
    ensures LeavesAt(Insert(t, i, segs), p) == LeavesAt(t, p)
  {
    var r := Insert(t, i, segs);
    var cs := t.children;
    var k := FirstMatch(cs, segs[0]);
    var t' := if k == |cs| then t.(children := cs + [Category(segs[0])]) else t;
    var c := Insert(t'.children[k], i, segs[1..]);
    assert r.children == t'.children[k := c];
    InsertKeepsHead(t'.children[k], i, segs[1..]);
    FirstMatchSameNames(r.children, t'.children, p[0]);
    FirstMatchIsFirst(cs, segs[0]);
    var k0 := FirstMatch(cs, p[0]);
    FirstMatchIsFirst(cs, p[0]);
    if k == |cs| {
      FirstMatchSnoc(cs, Category(segs[0]), p[0]);
    }
    if k0 < |cs| {
      assert r.children[k0] == cs[k0];
    }
  }

  /**
   * `create_tree` keeps the input order: the leaves directly under the node
   * at category path `p` are exactly the tests whose category splits into
   * `p`, in the order they were given.
   */
  lemma {:induction false} BuildLeavesInOrder(tests: seq<Info>, sep: char, p: seq<string>)
    ensures LeavesAt(Build(tests, sep), p) == Matching(tests, p, sep)
  {
    if tests == [] {
      ChildlessHasNoLeaves(Root, p);
    } else {
      var n := |tests| - 1;
      BuildLeavesInOrder(tests[..n], sep, p);
      InsertLeavesAt(Build(tests[..n], sep), tests[n], CategoryPath.Segments(tests[n].category, sep), p);
    }
  }
}
