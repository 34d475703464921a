/**
 * What `run_selected` does, stated on the model: which tests the runner is
 * given, in which order, and which results change.
 */
module RunFacts {
  import opened Upptest
  import opened TreeModel
  import opened StatsFacts

  /** Every runnable node is a leaf. */
  lemma {:induction false} RunnableAreLeaves(t: Tree)
    ensures forall j :: 0 <= j < |Runnable(t)| ==> Runnable(t)[j].IsLeaf()
    decreases t, 1
  {
    if !t.IsLeaf() {
      RunnableAllAreLeaves(t.children, |t.children|);
    }
  }

  lemma {:induction false} RunnableAllAreLeaves(cs: seq<Tree>, k: nat)
    requires k <= |cs|
    ensures forall j :: 0 <= j < |RunnableAll(cs, k)| ==> RunnableAll(cs, k)[j].IsLeaf()
    decreases cs, 0, k
  {
    if k > 0 {
      RunnableAllAreLeaves(cs, k - 1);
      RunnableAreLeaves(cs[k - 1]);
    }
  }

  /** The descriptors of the leaves in `ls` that a run chooses, in order. */
  function ChosenInfos(ls: seq<Tree>, ignoreSelected: bool): seq<Info>
    requires forall j :: 0 <= j < |ls| ==> ls[j].IsLeaf()
  {
    if ls == [] then []
    else
      var last := ls[|ls| - 1];
      assert last.IsLeaf();
      ChosenInfos(ls[..|ls| - 1], ignoreSelected) + (if Chosen(last, ignoreSelected) then [last.info.value] else [])
  }

  lemma {:induction false} ChosenInfosAppend(a: seq<Tree>, b: seq<Tree>, ignoreSelected: bool)
    requires forall j :: 0 <= j < |a| ==> a[j].IsLeaf()
    requires forall j :: 0 <= j < |b| ==> b[j].IsLeaf()
    ensures forall j :: 0 <= j < |a + b| ==> (a + b)[j].IsLeaf()
    ensures ChosenInfos(a + b, ignoreSelected) == ChosenInfos(a, ignoreSelected) + ChosenInfos(b, ignoreSelected)
    decreases |b|
  {
    if b == [] {
      assert a + b == a;
    } else {
      var n := |b| - 1;
      assert (a + b)[..|a + b| - 1] == a + b[..n];
      ChosenInfosAppend(a, b[..n], ignoreSelected);
    }
  }

  /**
   * `run_selected` hands the runner the chosen runnable leaves, each once,
   * in depth-first order.
   */
  lemma {:induction false} ToRunIsChosen(t: Tree, ignoreSelected: bool)
    ensures forall j :: 0 <= j < |Runnable(t)| ==> Runnable(t)[j].IsLeaf()
    ensures ToRun(t, ignoreSelected) == ChosenInfos(Runnable(t), ignoreSelected)
    decreases t, 1
  {
    RunnableAreLeaves(t);
    if t.IsLeaf() {
      assert Runnable(t)[..0] == [];
    } else {
      ToRunAllIsChosen(t.children, |t.children|, ignoreSelected);
    }
  }

  lemma {:induction false} ToRunAllIsChosen(cs: seq<Tree>, k: nat, ignoreSelected: bool)
    requires k <= |cs|
    ensures forall j :: 0 <= j < |RunnableAll(cs, k)| ==> RunnableAll(cs, k)[j].IsLeaf()
    ensures ToRunAll(cs, k, ignoreSelected) == ChosenInfos(RunnableAll(cs, k), ignoreSelected)
    decreases cs, 0, k
  {
    RunnableAllAreLeaves(cs, k);
    if k > 0 {
      ToRunAllIsChosen(cs, k - 1, ignoreSelected);
      ToRunIsChosen(cs[k - 1], ignoreSelected);
      ChosenInfosAppend(RunnableAll(cs, k - 1), Runnable(cs[k - 1]), ignoreSelected);
    }
  }

  /** With selection ignored, every runnable leaf is chosen. */
  lemma {:induction false} ChosenAllWhenIgnoring(ls: seq<Tree>)
    requires forall j :: 0 <= j < |ls| ==> ls[j].IsLeaf()
    ensures |ChosenInfos(ls, true)| == |ls|
    ensures forall j :: 0 <= j < |ls| ==> ChosenInfos(ls, true)[j] == ls[j].info.value
  {
    if ls != [] {
      ChosenAllWhenIgnoring(ls[..|ls| - 1]);
    }
  }

  /** "Run all" on a node runs exactly as many tests as its totals count. */
  lemma RunAllCount(t: Tree)
    ensures |ToRun(t, true)| == StatsOf(t).count
  {
    ToRunIsChosen(t, true);
    ChosenAllWhenIgnoring(Runnable(t));
    StatsAreTally(t);
  }

  /** Each leaf in `ls` as `run_selected` leaves it. */
  function RunLeaves(ls: seq<Tree>, ignoreSelected: bool, outcome: Info -> TestResult): (r: seq<Tree>)
    requires forall j :: 0 <= j < |ls| ==> ls[j].IsLeaf()
    ensures |r| == |ls|
  {
    seq(|ls|, j requires 0 <= j < |ls| => RunLeaf(ls[j], ignoreSelected, outcome))
  }

  /**
   * `run_selected` touches only runnable leaves: the runnable leaves
   * afterwards are the ones before, each rerun exactly when it was chosen.
   */
  lemma {:induction false} RunTouchesRunnable(t: Tree, ignoreSelected: bool, outcome: Info -> TestResult)
    ensures forall j :: 0 <= j < |Runnable(t)| ==> Runnable(t)[j].IsLeaf()
    ensures Runnable(RunTree(t, ignoreSelected, outcome)) == RunLeaves(Runnable(t), ignoreSelected, outcome)
    decreases t, 1
  {
    RunnableAreLeaves(t);
    if !t.IsLeaf() {
      var r := RunTree(t, ignoreSelected, outcome);
      RunAllTouchesRunnable(t.children, r.children, |t.children|, ignoreSelected, outcome);
    }
  }

  lemma {:induction false} RunAllTouchesRunnable(cs: seq<Tree>, rs: seq<Tree>, k: nat, ignoreSelected: bool, outcome: Info -> TestResult)
    requires k <= |cs| == |rs|
    requires forall j :: 0 <= j < |cs| ==> rs[j] == RunTree(cs[j], ignoreSelected, outcome)
    ensures forall j :: 0 <= j < |RunnableAll(cs, k)| ==> RunnableAll(cs, k)[j].IsLeaf()
    ensures RunnableAll(rs, k) == RunLeaves(RunnableAll(cs, k), ignoreSelected, outcome)
    decreases cs, 0, k
  {
    RunnableAllAreLeaves(cs, k);
    if k > 0 {
      RunAllTouchesRunnable(cs, rs, k - 1, ignoreSelected, outcome);
      RunTouchesRunnable(cs[k - 1], ignoreSelected, outcome);
      var a, b := RunnableAll(cs, k - 1), Runnable(cs[k - 1]);
      RunnableAreLeaves(cs[k - 1]);
      assert RunLeaves(a + b, ignoreSelected, outcome) == RunLeaves(a, ignoreSelected, outcome) + RunLeaves(b, ignoreSelected, outcome);
    }
  }

  /** After "Run all" and `update_stats`, the totals count the runner's verdicts on the runnable leaves. */
  lemma RunAllThenCount(t: Tree, outcome: Info -> TestResult)
    ensures forall j :: 0 <= j < |Runnable(t)| ==> Runnable(t)[j].IsLeaf()
    ensures StatsOf(RunTree(t, true, outcome)) == Tally(RunLeaves(Runnable(t), true, outcome))
  {
    RunTouchesRunnable(t, true, outcome);
    StatsAreTally(RunTree(t, true, outcome));
  }

  /**
   * The two trees differ at most in their stored results, a node whose
   * result differs is a leaf that a run with `ignoreSelected` chooses, and
   * everything below a leaf is untouched.
   */
  predicate RunFrame(a: Tree, b: Tree, ignoreSelected: bool)
  {
    a.name == b.name && a.info == b.info && a.selected == b.selected && a.stats == b.stats &&
    (a.lastResult != b.lastResult ==> b.IsLeaf() && Chosen(b, ignoreSelected)) &&
    (b.IsLeaf() ==> a.children == b.children) &&
    |a.children| == |b.children| &&
    forall j :: 0 <= j < |a.children| ==> RunFrame(a.children[j], b.children[j], ignoreSelected)
  }

  lemma {:induction false} RunFrameReflexive(t: Tree, ignoreSelected: bool)
    ensures RunFrame(t, t, ignoreSelected)
  {
    forall j | 0 <= j < |t.children|
      ensures RunFrame(t.children[j], t.children[j], ignoreSelected)
    {
      RunFrameReflexive(t.children[j], ignoreSelected);
    }
  }

  /**
   * `run_selected` stores results and nothing else: no name, descriptor,
   * selection flag, cached stats or shape changes anywhere in the tree, and
   * every node that is not a chosen leaf (categories, and anything hanging
   * below a leaf) keeps its result.
   */
  lemma {:induction false} RunOnlyResults(t: Tree, ignoreSelected: bool, outcome: Info -> TestResult)
    ensures RunFrame(RunTree(t, ignoreSelected, outcome), t, ignoreSelected)
  {
    if t.IsLeaf() {
      var r := RunTree(t, ignoreSelected, outcome);
      assert r.children == t.children;
      forall j | 0 <= j < |t.children|
        ensures RunFrame(r.children[j], t.children[j], ignoreSelected)
      {
        RunFrameReflexive(t.children[j], ignoreSelected);
      }
    } else {
      forall j | 0 <= j < |t.children|
        ensures RunFrame(RunTree(t, ignoreSelected, outcome).children[j], t.children[j], ignoreSelected)
      {
        RunOnlyResults(t.children[j], ignoreSelected, outcome);
      }
    }
  }
}
