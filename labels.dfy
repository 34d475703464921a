/**
 * The verdict `update_tree` shows next to each node: for a leaf, from its
 * last status; for a category, from its cached totals. The drawing itself
 * is not modelled; only which of the three verdicts (and colours) is chosen.
 */
module Labels {
  import opened Upptest
  import opened Stats
  import opened TreeModel
  import opened StatsFacts

  /** "Not run" in grey, "Failed: …" in red, "Success" in green. */
  datatype Verdict = Unknown | Failed | Succeeded

  /** A leaf's verdict: not run, failed, and anything else counts as success. */
  function LeafVerdict(st: Status): (v: Verdict)
    ensures v == Unknown <==> st == NotRun
    ensures v == Failed <==> st == Fail
  {
    if st == NotRun then Unknown
    else if st == Fail then Failed
    else Succeeded
  }

  /** A category's verdict: any failure wins, then all passed, else not run. */
  function CategoryVerdict(s: NodeStats): (v: Verdict)
    ensures v == Failed <==> s.failedCount != 0
    ensures v == Succeeded <==> s.failedCount == 0 && s.passCount == s.count
  {
    if s.failedCount != 0 then Failed
    else if s.passCount == s.count then Succeeded
    else Unknown
  }

  /** A leaf's own verdict is the one its one-test totals would get as a category. */
  lemma LeafVerdictAgrees(st: Status)
    ensures LeafVerdict(st) == CategoryVerdict(LeafStats(st))
  {
  }

  /**
   * With the totals `update_stats` caches, a category shows "Failed" exactly
   * when some runnable leaf below it last failed, and "Success" exactly when
   * every runnable leaf below it last passed (so also when there are none).
   */
  lemma CategoryVerdictMeaning(t: Tree)
    ensures CategoryVerdict(StatsOf(t)) == Failed <==>
      exists j :: 0 <= j < |Runnable(t)| && Runnable(t)[j].lastResult.status == Fail
    ensures CategoryVerdict(StatsOf(t)) == Succeeded <==>
      forall j :: 0 <= j < |Runnable(t)| ==> Runnable(t)[j].lastResult.status == Pass
  {
    var ls := Runnable(t);
    StatsAreTally(t);
    CountPositive(ls, Fail);
    CountAll(ls, Pass);
    if forall j :: 0 <= j < |ls| ==> ls[j].lastResult.status == Pass {
      CountPositive(ls, Fail);
      assert CountStatus(ls, Fail) == 0;
    }
  }
}
