/**
 * Building the tree: `add_node` walks (and extends) the category path of a
 * test from a node, and `create_tree` inserts every test into a new root and
 * updates the stats once at the end.
 */
module TreeBuilder {
  import opened Upptest
  import opened TreeModel
  import opened TestNodes
  import opened InsertFacts
  import opened StatsFacts
  import CategoryPath

  /** The `std::find_if` over the children: the first one named `n`, or `|cs|`. */
  function FindChild(cs: seq<TestNode>, n: string): (k: nat)
    ensures k <= |cs|
    ensures forall j :: 0 <= j < k ==> cs[j].name != n
    ensures k < |cs| ==> cs[k].name == n
  {
    if cs == [] then 0
    else if cs[0].name == n then 0
    else 1 + FindChild(cs[1..], n)
  }

  /**
   * The step of `add_node` that picks the child to descend into: the first
   * child named `n`, or a category of that name appended when there is none.
   */
  method ChildFor(root: TestNode, n: string) returns (k: nat, node: TestNode)
    requires root.Valid()
    modifies root
    ensures root.Valid() && old(root.Repr) <= root.Repr && fresh(root.Repr - old(root.Repr))
    ensures k == FirstMatch(old(root.model).children, n)
    ensures root.model == if k == |old(root.model).children| then old(root.model).(children := old(root.model).children + [Category(n)])
                          else old(root.model)
    ensures k < |root.children| && node == root.children[k] && node.model == root.model.children[k]
    ensures node.Valid() && node.Repr <= root.Repr && root !in node.Repr
  {
    k := FindChild(root.children, n);
    FirstMatchIsFirst(root.model.children, n);
    if k == |root.children| {
      node := root.AddCategory(n);
    } else {
      node := root.children[k];
    }
  }

  /**
   * `add_node(root, i, segs)`: follow the path `segs` down from `root`,
   * reusing or adding one node per segment, and add a leaf for `i` at the
   * end of it; the new leaf is returned.
   */
  method AddNode(root: TestNode, i: Info, segs: seq<string>) returns (leaf: TestNode)
    requires root.Valid()
    modifies root.Repr
    ensures root.Valid() && old(root.Repr) <= root.Repr && fresh(root.Repr - old(root.Repr))
    ensures root.model == Insert(old(root.model), i, segs)
    ensures fresh(leaf) && leaf.name == i.name && leaf.testInfo == Some(i)
    ensures leaf in root.Repr && leaf.model == Leaf(i)
    decreases |segs|
  {
    if segs == [] {
      leaf := root.AddTest(i);
      return;
    }
    var k, node := ChildFor(root, segs[0]);
    label descend:
    leaf := AddNode(node, i, segs[1..]);
    root.model := root.model.(children := root.model.children[k := node.model]);
    root.Repr := root.Repr + node.Repr;
    root.Readopt@descend(k);
  }

  /**
   * `create_tree(tests, sep)`: a new unnamed root, each test added under the
   * path its category splits into, then one stats update.
   */
  method CreateTree(tests: seq<Info>, sep: char) returns (root: TestNode)
    ensures root.Valid() && fresh(root.Repr)
    ensures root.model == Refresh(Build(tests, sep))
  {
    root := new TestNode("", None);
    for n := 0 to |tests|
      invariant root.Valid() && fresh(root.Repr)
      invariant root.model == Build(tests[..n], sep)
    {
      var elems := CategoryPath.SplitCategory(tests[n].category, sep);
      var _ := AddNode(root, tests[n], elems);
      assert tests[..n + 1][..n] == tests[..n];
    }
    assert tests[..|tests|] == tests;
    var _ := root.UpdateStats();
  }

  /** `create_tree(tests)`: the separator defaults to `'.'`. */
  method CreateTreeDefault(tests: seq<Info>) returns (root: TestNode)
    ensures root.Valid() && fresh(root.Repr)
    ensures root.model == Refresh(Build(tests, '.'))
  {
    root := CreateTree(tests, '.');
  }

  /**
   * The tree `create_tree` returns: an unnamed root category holding every
   * given test, each as often as it was given, with the cached totals of
   * every category reached without passing through a leaf equal to the
   * counts over the runnable leaves below it.
   */
  lemma CreatedTree(tests: seq<Info>, sep: char)
    ensures var t := Refresh(Build(tests, sep));
      t.name == "" && t.info == None && TestsIn(t) == multiset(tests) && Cached(t) &&
      t.stats == Tally(Runnable(t))
  {
    var b := Build(tests, sep);
    BuildRoot(tests, sep);
    BuildHoldsTests(tests, sep);
    RefreshKeepsTests(b);
    RefreshCaches(b);
    RefreshKeepsStats(b);
    StatsAreTally(b);
  }
}
