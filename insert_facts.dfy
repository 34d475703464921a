/**
 * What `add_node` and `create_tree` do to the set of tests and to the shape
 * of the tree, stated on the model.
 */
module InsertFacts {
  import opened Upptest
  import opened TreeModel
  import CategoryPath

  /** Every test descriptor held by a node of `t`, wherever it sits. */
  function TestsIn(t: Tree): multiset<Info>
  {
    (if t.info.Some? then multiset{t.info.value} else multiset{}) + TestsInAll(t.children, |t.children|)
  }

  /** The descriptors held under the first `k` children. */
  function TestsInAll(cs: seq<Tree>, k: nat): multiset<Info>
    requires k <= |cs|
  {
    if k == 0 then multiset{} else TestsInAll(cs, k - 1) + TestsIn(cs[k - 1])
  }

  /** The sum over a prefix depends only on that prefix. */
  lemma {:induction false} TestsInAllPrefix(cs: seq<Tree>, ds: seq<Tree>, k: nat)
    requires k <= |cs| && k <= |ds| && cs[..k] == ds[..k]
    ensures TestsInAll(cs, k) == TestsInAll(ds, k)
  {
    if k > 0 {
      assert cs[k - 1] == cs[..k][k - 1] == ds[..k][k - 1] == ds[k - 1];
      assert cs[..k - 1] == cs[..k][..k - 1];
      assert ds[..k - 1] == ds[..k][..k - 1];
      TestsInAllPrefix(cs, ds, k - 1);
    }
  }

  /** Appending a child adds its descriptors. */
  lemma TestsInAllAppend(cs: seq<Tree>, x: Tree)
    ensures TestsInAll(cs + [x], |cs| + 1) == TestsInAll(cs, |cs|) + TestsIn(x)
  {
    assert (cs + [x])[..|cs|] == cs[..|cs|];
    TestsInAllPrefix(cs + [x], cs, |cs|);
  }

  /** Replacing child `j` by `x` trades its descriptors for those of `x`. */
  lemma {:induction false} TestsInAllUpdate(cs: seq<Tree>, j: nat, x: Tree, k: nat)
    requires j < k <= |cs|
    ensures TestsInAll(cs[j := x], k) + TestsIn(cs[j]) == TestsInAll(cs, k) + TestsIn(x)
  {
    if k == j + 1 {
      assert cs[j := x][..j] == cs[..j];
      TestsInAllPrefix(cs[j := x], cs, j);
    } else {
      TestsInAllUpdate(cs, j, x, k - 1);
      assert cs[j := x][k - 1] == cs[k - 1];
      var a, b, c := TestsInAll(cs[j := x], k - 1), TestsInAll(cs, k - 1), TestsIn(cs[k - 1]);
      assert a + TestsIn(cs[j]) == b + TestsIn(x);
      calc {
        TestsInAll(cs[j := x], k) + TestsIn(cs[j]);
        (a + c) + TestsIn(cs[j]);
        (a + TestsIn(cs[j])) + c;
        (b + TestsIn(x)) + c;
        (b + c) + TestsIn(x);
      }
    }
  }

  lemma MultisetCancel(a: multiset<Info>, b: multiset<Info>, x: multiset<Info>, y: multiset<Info>)
    requires a + x == b + x + y
    ensures a == b + y
  {
    forall e | true
      ensures a[e] == (b + y)[e]
    {
      assert (a + x)[e] == (b + x + y)[e];
    }
  }

  /** Insertion keeps the node's own name and descriptor. */
  lemma InsertKeepsHead(t: Tree, i: Info, segs: seq<string>)
    ensures Insert(t, i, segs).name == t.name && Insert(t, i, segs).info == t.info
    ensures Insert(t, i, segs).selected == t.selected && Insert(t, i, segs).stats == t.stats
  {
  }

  /** Appending child `c` adds its descriptors. */
  lemma AppendChildAdds(t: Tree, c: Tree)
    ensures TestsIn(t.(children := t.children + [c])) == TestsIn(t) + TestsIn(c)
  {
    TestsInAllAppend(t.children, c);
  }

  /** Growing child `k` by `y` grows the node by `y`. */
  lemma ReplaceChildAdds(t: Tree, k: nat, c: Tree, y: multiset<Info>)
    requires k < |t.children| && TestsIn(c) == TestsIn(t.children[k]) + y
    ensures TestsIn(t.(children := t.children[k := c])) == TestsIn(t) + y
  {
    var r := t.(children := t.children[k := c]);
    TestsInAllUpdate(t.children, k, c, |t.children|);
    var a, b := TestsInAll(r.children, |r.children|), TestsInAll(t.children, |t.children|);
    MultisetCancel(a, b, TestsIn(t.children[k]), y);
  }

  /** `add_node` adds exactly one descriptor, `i`, and loses none. */
  lemma {:induction false} InsertAddsTest(t: Tree, i: Info, segs: seq<string>)
    ensures TestsIn(Insert(t, i, segs)) == TestsIn(t) + multiset{i}
    decreases |segs|
  {
    if segs == [] {
      AppendChildAdds(t, Leaf(i));
    } else {
      var k := FirstMatch(t.children, segs[0]);
      var t' := if k == |t.children| then t.(children := t.children + [Category(segs[0])]) else t;
      if k == |t.children| {
        AppendChildAdds(t, Category(segs[0]));
      }
      assert TestsIn(t') == TestsIn(t);
      InsertAddsTest(t'.children[k], i, segs[1..]);
      ReplaceChildAdds(t', k, Insert(t'.children[k], i, segs[1..]), multiset{i});
    }
  }

  /** `create_tree` holds every test it was given, each as often as it was given. */
  lemma {:induction false} BuildHoldsTests(tests: seq<Info>, sep: char)
    ensures TestsIn(Build(tests, sep)) == multiset(tests)
  {
    if tests != [] {
      var n := |tests| - 1;
      BuildHoldsTests(tests[..n], sep);
      InsertAddsTest(Build(tests[..n], sep), tests[n], CategoryPath.Segments(tests[n].category, sep));
      assert tests == tests[..n] + [tests[n]];
    }
  }

  /** The root `create_tree` builds is the unnamed category it started from. */
  lemma {:induction false} BuildRoot(tests: seq<Info>, sep: char)
    ensures Build(tests, sep).name == "" && Build(tests, sep).info == None
    ensures !Build(tests, sep).selected
  {
    if tests != [] {
      BuildRoot(tests[..|tests| - 1], sep);
    }
  }

  /**
   * `add_node` never removes or reorders children: the old children keep
   * their places and names, every child but the one descended into stays
   * exactly as it was, and at most one new child is appended.
   */
  lemma {:induction false} InsertExtends(t: Tree, i: Info, segs: seq<string>)
    ensures var r := Insert(t, i, segs);
      |t.children| <= |r.children| <= |t.children| + 1 &&
      forall j :: 0 <= j < |t.children| ==> r.children[j].name == t.children[j].name
    ensures segs != [] ==> forall j :: 0 <= j < |t.children| && j != FirstMatch(t.children, segs[0]) ==>
      Insert(t, i, segs).children[j] == t.children[j]
    ensures Extends(Insert(t, i, segs), t)
    decreases |segs|
  {
    var r := Insert(t, i, segs);
    if segs == [] {
      forall j | 0 <= j < |t.children|
        ensures Extends(r.children[j], t.children[j])
      {
        ExtendsReflexive(t.children[j]);
      }
    } else {
      var k := FirstMatch(t.children, segs[0]);
      var t' := if k == |t.children| then t.(children := t.children + [Category(segs[0])]) else t;
      InsertKeepsHead(t'.children[k], i, segs[1..]);
      assert r.children == t'.children[k := Insert(t'.children[k], i, segs[1..])];
      forall j | 0 <= j < |t.children|
        ensures Extends(r.children[j], t.children[j])
      {
        if j == k {
          InsertExtends(t.children[k], i, segs[1..]);
        } else {
          ExtendsReflexive(t.children[j]);
        }
      }
    }
  }

  /**
   * `r` grows `t` without disturbing it: at every node the fields stay, the
   * old children keep their places, and at most one child is appended.
   */
  predicate Extends(r: Tree, t: Tree)
  {
    r.name == t.name && r.info == t.info && r.lastResult == t.lastResult &&
    r.selected == t.selected && r.stats == t.stats &&
    |t.children| <= |r.children| <= |t.children| + 1 &&
    forall j :: 0 <= j < |t.children| ==> Extends(r.children[j], t.children[j])
  }

  lemma {:induction false} ExtendsReflexive(t: Tree)
    ensures Extends(t, t)
  {
    forall j | 0 <= j < |t.children|
      ensures Extends(t.children[j], t.children[j])
    {
      ExtendsReflexive(t.children[j]);
    }
  }

  /** A category path followed from `t`, first match at every level. */
  function Follow(t: Tree, segs: seq<string>): Option<Tree>
    decreases |segs|
  {
    if segs == [] then Some(t)
    else
      var k := FirstMatch(t.children, segs[0]);
      if k == |t.children| then None else Follow(t.children[k], segs[1..])
  }

  /** Replacing a child by one of the same name leaves the first match where it was. */
  lemma {:induction false} FirstMatchUpdate(cs: seq<Tree>, n: string, k: nat, x: Tree)
    requires k == FirstMatch(cs, n) && k < |cs| && x.name == n
    ensures FirstMatch(cs[k := x], n) == k
  {
    if cs[0].name != n {
      assert cs[k := x][1..] == cs[1..][k - 1 := x];
      FirstMatchUpdate(cs[1..], n, k - 1, x);
    }
  }

  /** When no child is named `n`, the appended category is the first that is. */
  lemma {:induction false} FirstMatchAppend(cs: seq<Tree>, n: string)
    requires FirstMatch(cs, n) == |cs|
    ensures FirstMatch(cs + [Category(n)], n) == |cs|
  {
    if cs != [] {
      assert (cs + [Category(n)])[1..] == cs[1..] + [Category(n)];
      FirstMatchAppend(cs[1..], n);
    }
  }

  /**
   * After `add_node(t, i, segs)` the path `segs` can be followed from the
   * root, and the node it leads to has the new leaf as its last child.
   */
  lemma {:induction false} InsertReachable(t: Tree, i: Info, segs: seq<string>)
    ensures Follow(Insert(t, i, segs), segs).Some?
    ensures var n := Follow(Insert(t, i, segs), segs).value;
      |n.children| > 0 && n.children[|n.children| - 1] == Leaf(i)
    decreases |segs|
  {
    if segs != [] {
      var k := FirstMatch(t.children, segs[0]);
      var t' := if k == |t.children| then t.(children := t.children + [Category(segs[0])]) else t;
      if k == |t.children| {
        FirstMatchAppend(t.children, segs[0]);
      } else {
        FirstMatchIsFirst(t.children, segs[0]);
      }
      assert k == FirstMatch(t'.children, segs[0]) && t'.children[k].name == segs[0];
      var c := Insert(t'.children[k], i, segs[1..]);
      InsertKeepsHead(t'.children[k], i, segs[1..]);
      FirstMatchUpdate(t'.children, segs[0], k, c);
      InsertReachable(t'.children[k], i, segs[1..]);
      assert Insert(t, i, segs).children[k] == c;
    }
  }

  /** `update_stats` moves and drops no test. */
  lemma {:induction false} RefreshKeepsTests(t: Tree)
    ensures TestsIn(Refresh(t)) == TestsIn(t)
    decreases t, 1
  {
    if !t.IsLeaf() {
      RefreshKeepsTestsAll(t.children, Refresh(t).children, |t.children|);
    }
  }

  lemma {:induction false} RefreshKeepsTestsAll(cs: seq<Tree>, rs: seq<Tree>, k: nat)
    requires k <= |cs| == |rs|
    requires forall j :: 0 <= j < |cs| ==> rs[j] == Refresh(cs[j])
    ensures TestsInAll(rs, k) == TestsInAll(cs, k)
    decreases cs, 0, k
  {
    if k > 0 {
      RefreshKeepsTestsAll(cs, rs, k - 1);
      RefreshKeepsTests(cs[k - 1]);
    }
  }

  /** The number of nodes in `t`, `t` included. */
  function Size(t: Tree): nat
  {
    1 + SizeAll(t.children, |t.children|)
  }

  /** The number of nodes under the first `k` children. */
  function SizeAll(cs: seq<Tree>, k: nat): nat
    requires k <= |cs|
  {
    if k == 0 then 0 else SizeAll(cs, k - 1) + Size(cs[k - 1])
  }

  lemma {:induction false} SizeAllPrefix(cs: seq<Tree>, ds: seq<Tree>, k: nat)
    requires k <= |cs| && k <= |ds| && cs[..k] == ds[..k]
    ensures SizeAll(cs, k) == SizeAll(ds, k)
  {
    if k > 0 {
      assert cs[k - 1] == cs[..k][k - 1] == ds[..k][k - 1] == ds[k - 1];
      assert cs[..k - 1] == cs[..k][..k - 1];
      assert ds[..k - 1] == ds[..k][..k - 1];
      SizeAllPrefix(cs, ds, k - 1);
    }
  }

  /** Appending child `c` adds its nodes. */
  lemma AppendChildSize(t: Tree, c: Tree)
    ensures Size(t.(children := t.children + [c])) == Size(t) + Size(c)
  {
    assert (t.children + [c])[..|t.children|] == t.children[..|t.children|];
    SizeAllPrefix(t.children + [c], t.children, |t.children|);
  }

  lemma {:induction false} SizeAllUpdate(cs: seq<Tree>, j: nat, x: Tree, k: nat)
    requires j < k <= |cs|
    ensures SizeAll(cs[j := x], k) + Size(cs[j]) == SizeAll(cs, k) + Size(x)
  {
    if k == j + 1 {
      assert cs[j := x][..j] == cs[..j];
      SizeAllPrefix(cs[j := x], cs, j);
    } else {
      SizeAllUpdate(cs, j, x, k - 1);
      assert cs[j := x][k - 1] == cs[k - 1];
    }
  }

  /** Replacing child `k` by a tree `d` nodes larger makes the node `d` nodes larger. */
  lemma ReplaceChildSize(t: Tree, k: nat, c: Tree, d: nat)
    requires k < |t.children| && Size(c) == Size(t.children[k]) + d
    ensures Size(t.(children := t.children[k := c])) == Size(t) + d
  {
    SizeAllUpdate(t.children, k, c, |t.children|);
  }

  /**
   * `add_node` adds the leaf and one category per segment that no existing
   * child matched: at least one node, at most one more per segment.
   */
  lemma {:induction false} InsertSize(t: Tree, i: Info, segs: seq<string>)
    ensures Size(t) + 1 <= Size(Insert(t, i, segs)) <= Size(t) + 1 + |segs|
    decreases |segs|
  {
    if segs == [] {
      AppendChildSize(t, Leaf(i));
    } else {
      var k := FirstMatch(t.children, segs[0]);
      var t' := if k == |t.children| then t.(children := t.children + [Category(segs[0])]) else t;
      if k == |t.children| {
        AppendChildSize(t, Category(segs[0]));
      }
      var c := Insert(t'.children[k], i, segs[1..]);
      InsertSize(t'.children[k], i, segs[1..]);
      ReplaceChildSize(t', k, c, Size(c) - Size(t'.children[k]));
    }
  }

  /** Inserting a test under a path that already exists adds only its leaf: no new category. */
  lemma {:induction false} InsertExistingPath(t: Tree, i: Info, segs: seq<string>)
    requires Follow(t, segs).Some?
    ensures Size(Insert(t, i, segs)) == Size(t) + 1
    decreases |segs|
  {
    if segs == [] {
      AppendChildSize(t, Leaf(i));
    } else {
      var k := FirstMatch(t.children, segs[0]);
      var c := Insert(t.children[k], i, segs[1..]);
      InsertExistingPath(t.children[k], i, segs[1..]);
      ReplaceChildSize(t, k, c, 1);
    }
  }

  /** A path that exists keeps existing after further insertions. */
  lemma {:induction false} InsertKeepsPaths(t: Tree, i: Info, segs: seq<string>, path: seq<string>)
    requires Follow(t, path).Some?
    ensures Follow(Insert(t, i, segs), path).Some?
    decreases |path|
  {
    if path != [] {
      var r := Insert(t, i, segs);
      var k0 := FirstMatch(t.children, path[0]);
      FirstMatchIsFirst(t.children, path[0]);
      InsertExtends(t, i, segs);
      FirstMatchIsFirst(r.children, path[0]);
      var k1 := FirstMatch(r.children, path[0]);
      assert k1 == k0;
      if segs != [] && FirstMatch(t.children, segs[0]) == k0 {
        InsertKeepsPaths(t.children[k0], i, segs[1..], path[1..]);
      }
    }
  }
}
