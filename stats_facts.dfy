/**
 * What the totals `update_stats` computes mean: counts over the runnable
 * leaves below a node. Also what the cached values look like afterwards.
 */
module StatsFacts {
  import opened Upptest
  import opened Stats
  import opened TreeModel

  /** How many of the leaves `ls` last reported status `st`. */
  function CountStatus(ls: seq<Tree>, st: Status): (r: nat)
    ensures r <= |ls|
  {
    if ls == [] then 0
    else CountStatus(ls[..|ls| - 1], st) + (if ls[|ls| - 1].lastResult.status == st then 1 else 0)
  }

  /** The totals a list of leaves stands for. */
  function Tally(ls: seq<Tree>): NodeStats
  {
    NodeStats(|ls|, CountStatus(ls, Fail), CountStatus(ls, Pass))
  }

  lemma {:induction false} CountStatusAppend(a: seq<Tree>, b: seq<Tree>, st: Status)
    ensures CountStatus(a + b, st) == CountStatus(a, st) + CountStatus(b, st)
    decreases |b|
  {
    if b == [] {
      assert a + b == a;
    } else {
      var n := |b| - 1;
      assert (a + b)[..|a + b| - 1] == a + b[..n];
      CountStatusAppend(a, b[..n], st);
    }
  }

  /** Counting a concatenation is the `+=` of the two counts. */
  lemma TallyAppend(a: seq<Tree>, b: seq<Tree>)
    ensures Tally(a + b) == Tally(a).Plus(Tally(b))
  {
    CountStatusAppend(a, b, Fail);
    CountStatusAppend(a, b, Pass);
    PlusOfTally(Tally(a), Tally(b), Tally(a + b));
  }

  lemma PlusOfTally(x: NodeStats, y: NodeStats, z: NodeStats)
    requires z.count == x.count + y.count && z.failedCount == x.failedCount + y.failedCount
    requires z.passCount == x.passCount + y.passCount
    ensures z == x.Plus(y)
  {
  }

  /**
   * `update_stats` counts each runnable leaf once: the number of them, how
   * many last failed and how many last passed.
   */
  lemma {:induction false} StatsAreTally(t: Tree)
    ensures StatsOf(t) == Tally(Runnable(t))
    decreases t, 1
  {
    if t.IsLeaf() {
      assert Runnable(t) == [t] && [t][..0] == [];
    } else {
      SumStatsAreTally(t.children, |t.children|);
    }
  }

  lemma {:induction false} SumStatsAreTally(cs: seq<Tree>, k: nat)
    requires k <= |cs|
    ensures SumStats(cs, k) == Tally(RunnableAll(cs, k))
    decreases cs, 0, k
  {
    if k > 0 {
      SumStatsAreTally(cs, k - 1);
      StatsAreTally(cs[k - 1]);
      TallyAppend(RunnableAll(cs, k - 1), Runnable(cs[k - 1]));
    }
  }

  /** The totals are consistent: passes and failures never outnumber the tests. */
  lemma StatsBounded(t: Tree)
    ensures StatsOf(t).Bounded()
  {
    StatsAreTally(t);
    CountStatusSplit(Runnable(t));
  }

  lemma {:induction false} CountStatusSplit(ls: seq<Tree>)
    ensures CountStatus(ls, Fail) + CountStatus(ls, Pass) <= |ls|
  {
    if ls != [] {
      CountStatusSplit(ls[..|ls| - 1]);
    }
  }

  /** A positive failure count means some listed leaf last failed, and conversely. */
  lemma {:induction false} CountPositive(ls: seq<Tree>, st: Status)
    ensures CountStatus(ls, st) > 0 <==> exists j :: 0 <= j < |ls| && ls[j].lastResult.status == st
  {
    if ls != [] {
      var n := |ls| - 1;
      CountPositive(ls[..n], st);
      if CountStatus(ls[..n], st) > 0 {
        var j :| 0 <= j < n && ls[..n][j].lastResult.status == st;
        assert ls[j] == ls[..n][j];
      }
      if exists j :: 0 <= j < n && ls[j].lastResult.status == st {
        var j :| 0 <= j < n && ls[j].lastResult.status == st;
        assert ls[..n][j] == ls[j];
      }
    }
  }

  /** A count equal to the length means every listed leaf has that status, and conversely. */
  lemma {:induction false} CountAll(ls: seq<Tree>, st: Status)
    ensures CountStatus(ls, st) == |ls| <==> forall j :: 0 <= j < |ls| ==> ls[j].lastResult.status == st
  {
    if ls != [] {
      var n := |ls| - 1;
      CountAll(ls[..n], st);
      if CountStatus(ls, st) == |ls| {
        forall j | 0 <= j < |ls|
          ensures ls[j].lastResult.status == st
        {
          if j < n {
            assert ls[j] == ls[..n][j];
          }
        }
      }
      if forall j :: 0 <= j < |ls| ==> ls[j].lastResult.status == st {
        forall j | 0 <= j < n
          ensures ls[..n][j].lastResult.status == st
        {
          assert ls[..n][j] == ls[j];
        }
      }
    }
  }

  /** The children after `update_stats`, as `Refresh` builds them. */
  lemma RefreshChildren(t: Tree)
    requires !t.IsLeaf()
    ensures |Refresh(t).children| == |t.children|
    ensures forall j :: 0 <= j < |t.children| ==> Refresh(t).children[j] == Refresh(t.children[j])
  {
  }

  /** `update_stats` changes no leaf, so a second count gives the same totals. */
  lemma {:induction false} RefreshKeepsStats(t: Tree)
    ensures StatsOf(Refresh(t)) == StatsOf(t)
    ensures Runnable(Refresh(t)) == Runnable(t)
    decreases t, 1
  {
    if !t.IsLeaf() {
      RefreshChildren(t);
      RefreshKeepsSum(t.children, Refresh(t).children, |t.children|);
    }
  }

  lemma {:induction false} RefreshKeepsSum(cs: seq<Tree>, rs: seq<Tree>, k: nat)
    requires k <= |cs| == |rs|
    requires forall j :: 0 <= j < |cs| ==> rs[j] == Refresh(cs[j])
    ensures SumStats(rs, k) == SumStats(cs, k)
    ensures RunnableAll(rs, k) == RunnableAll(cs, k)
    decreases cs, 0, k
  {
    if k > 0 {
      RefreshKeepsSum(cs, rs, k - 1);
      RefreshKeepsStats(cs[k - 1]);
    }
  }

  /**
   * After `update_stats` every category the walk reached caches the totals of
   * its own subtree; the walk stops at leaves.
   */
  predicate Cached(t: Tree)
  {
    !t.IsLeaf() ==> t.stats == StatsOf(t) && forall j :: 0 <= j < |t.children| ==> Cached(t.children[j])
  }

  lemma {:induction false} RefreshCaches(t: Tree)
    ensures Cached(Refresh(t))
  {
    if !t.IsLeaf() {
      RefreshChildren(t);
      RefreshKeepsStats(t);
      forall j | 0 <= j < |t.children|
        ensures Cached(Refresh(t).children[j])
      {
        RefreshCaches(t.children[j]);
      }
    }
  }

  /** The two trees differ at most in their cached totals. */
  predicate SameButStats(a: Tree, b: Tree)
  {
    a.name == b.name && a.info == b.info && a.lastResult == b.lastResult && a.selected == b.selected &&
    |a.children| == |b.children| &&
    forall j :: 0 <= j < |a.children| ==> SameButStats(a.children[j], b.children[j])
  }

  lemma {:induction false} SameStatsReflexive(t: Tree)
    ensures SameButStats(t, t)
  {
    forall j | 0 <= j < |t.children|
      ensures SameButStats(t.children[j], t.children[j])
    {
      SameStatsReflexive(t.children[j]);
    }
  }

  /**
   * `update_stats` writes nothing but the cached totals of categories: no
   * name, descriptor, result, selection flag or shape changes anywhere in
   * the tree, and every leaf, at any depth, stays exactly as it was.
   */
  lemma {:induction false} RefreshOnlyStats(t: Tree)
    ensures SameButStats(Refresh(t), t)
    ensures t.IsLeaf() ==> Refresh(t) == t
    ensures LeavesKept(Refresh(t), t)
  {
    if t.IsLeaf() {
      SameStatsReflexive(t);
      LeavesKeptReflexive(t);
    } else {
      forall j | 0 <= j < |t.children|
        ensures SameButStats(Refresh(t).children[j], t.children[j])
        ensures LeavesKept(Refresh(t).children[j], t.children[j])
      {
        RefreshOnlyStats(t.children[j]);
      }
    }
  }

  /** Every leaf of `b`, at any depth, is unchanged in `a`. */
  predicate LeavesKept(a: Tree, b: Tree)
  {
    (b.IsLeaf() ==> a == b) &&
    |a.children| == |b.children| &&
    forall j :: 0 <= j < |a.children| ==> LeavesKept(a.children[j], b.children[j])
  }

  lemma {:induction false} LeavesKeptReflexive(t: Tree)
    ensures LeavesKept(t, t)
  {
    forall j | 0 <= j < |t.children|
      ensures LeavesKept(t.children[j], t.children[j])
    {
      LeavesKeptReflexive(t.children[j]);
    }
  }
}
