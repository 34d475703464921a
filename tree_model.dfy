/**
 * The abstract value of a test tree. Every `TestNode` object carries one of
 * these as its model, and each operation on nodes is specified by one of the
 * functions below acting on it.
 */
module TreeModel {
  import opened Upptest
  import opened Stats
  import CategoryPath

  /**
   * A node: a category when `info` is None, a test leaf otherwise. `stats`
   * is the cached total of the last stats update (only categories ever set
   * it); `lastResult` is written only on leaves, by a run.
   */
  datatype Tree = Tree(
    name: string,
    info: Option<Info>,
    lastResult: TestResult,
    selected: bool,
    stats: NodeStats,
    children: seq<Tree>)
  {
    predicate IsLeaf() { info.Some? }
  }

  /** A freshly constructed node: not selected, zero stats, nothing run, no children. */
  function NewNode(name: string, info: Option<Info>): Tree
  {
    Tree(name, info, NotRunResult, false, Zero, [])
  }

  function Category(name: string): Tree { NewNode(name, None) }

  /** The node added for a test is named after the test. */
  function Leaf(i: Info): Tree { NewNode(i.name, Some(i)) }

  /** The root of a new tree: an unnamed category. */
  const Root: Tree := NewNode("", None)

  /** Position of the first child named `n`, or `|cs|` if none is (std::find_if). */
  function FirstMatch(cs: seq<Tree>, n: string): (k: nat)
    ensures k <= |cs|
  {
    if cs == [] then 0
    else if cs[0].name == n then 0
    else 1 + FirstMatch(cs[1..], n)
  }

  /** FirstMatch finds the first child with that name, and none before it. */
  lemma {:induction false} FirstMatchIsFirst(cs: seq<Tree>, n: string)
    ensures forall j :: 0 <= j < FirstMatch(cs, n) ==> cs[j].name != n
    ensures FirstMatch(cs, n) < |cs| ==> cs[FirstMatch(cs, n)].name == n
  {
    if cs != [] && cs[0].name != n {
      FirstMatchIsFirst(cs[1..], n);
    }
  }

  /**
   * `add_node`: follow `segs` from `t`, at each level reusing the first child
   * with the segment's name (category or leaf alike) or else appending a new
   * category, and finally append a leaf for `i`.
   */
  function Insert(t: Tree, i: Info, segs: seq<string>): Tree
    decreases |segs|
  {
    if segs == [] then t.(children := t.children + [Leaf(i)])
    else
      var k := FirstMatch(t.children, segs[0]);
      var t' := if k == |t.children| then t.(children := t.children + [Category(segs[0])]) else t;
      t'.(children := t'.children[k := Insert(t'.children[k], i, segs[1..])])
  }

  /** The tree before its stats update: every test inserted, in order, into an empty root. */
  function Build(tests: seq<Info>, sep: char): Tree
  {
    if tests == [] then Root
    else
      var n := |tests| - 1;
      Insert(Build(tests[..n], sep), tests[n], CategoryPath.Segments(tests[n].category, sep))
  }

  /** What `update_stats` returns for a node. */
  function StatsOf(t: Tree): NodeStats
  {
    if t.IsLeaf() then LeafStats(t.lastResult.status) else SumStats(t.children, |t.children|)
  }

  /** The first `k` children's results summed with `+=`, left to right. */
  function SumStats(cs: seq<Tree>, k: nat): NodeStats
    requires k <= |cs|
  {
    if k == 0 then Zero else SumStats(cs, k - 1).Plus(StatsOf(cs[k - 1]))
  }

  /**
   * The tree after `update_stats`: every category reached without passing
   * through a leaf caches its freshly computed total; leaves are left as they are.
   */
  function Refresh(t: Tree): Tree
  {
    if t.IsLeaf() then t
    else t.(stats := StatsOf(t),
            children := seq(|t.children|, j requires 0 <= j < |t.children| => Refresh(t.children[j])))
  }

  /** The tree after `update_selected(v, recurse)`. */
  function SelectTree(t: Tree, v: bool, recurse: bool): Tree
  {
    if !recurse then t.(selected := v)
    else t.(selected := v,
            children := seq(|t.children|, j requires 0 <= j < |t.children| => SelectTree(t.children[j], v, true)))
  }

  /** Whether `run_selected` runs leaf `t`. */
  predicate Chosen(t: Tree, ignoreSelected: bool)
  {
    ignoreSelected || t.selected
  }

  /** A leaf after `run_selected`: rerun and its result stored if chosen, else untouched. */
  function RunLeaf(t: Tree, ignoreSelected: bool, outcome: Info -> TestResult): Tree
    requires t.IsLeaf()
  {
    if Chosen(t, ignoreSelected) then t.(lastResult := outcome(t.info.value)) else t
  }

  /** The tree after `run_selected(t, ignoreSelected)` with a runner whose results are `outcome`. */
  function RunTree(t: Tree, ignoreSelected: bool, outcome: Info -> TestResult): Tree
  {
    if t.IsLeaf() then RunLeaf(t, ignoreSelected, outcome)
    else t.(children := seq(|t.children|, j requires 0 <= j < |t.children| => RunTree(t.children[j], ignoreSelected, outcome)))
  }

  /** The descriptors `run_selected` hands to the runner, in order. */
  function ToRun(t: Tree, ignoreSelected: bool): seq<Info>
  {
    if !t.IsLeaf() then ToRunAll(t.children, |t.children|, ignoreSelected)
    else if Chosen(t, ignoreSelected) then [t.info.value]
    else []
  }

  /** What `run_selected` hands to the runner for the first `k` children. */
  function ToRunAll(cs: seq<Tree>, k: nat, ignoreSelected: bool): seq<Info>
    requires k <= |cs|
  {
    if k == 0 then [] else ToRunAll(cs, k - 1, ignoreSelected) + ToRun(cs[k - 1], ignoreSelected)
  }

  /**
   * The leaves that stats and runs see, depth-first in child order: those
   * reached from `t` without passing through another leaf.
   */
  function Runnable(t: Tree): seq<Tree>
  {
    if t.IsLeaf() then [t] else RunnableAll(t.children, |t.children|)
  }

  /** The runnable leaves under the first `k` children. */
  function RunnableAll(cs: seq<Tree>, k: nat): seq<Tree>
    requires k <= |cs|
  {
    if k == 0 then [] else RunnableAll(cs, k - 1) + Runnable(cs[k - 1])
  }
}
