/** Per-subtree totals: how many tests, how many failed, how many passed. */
module Stats {
  import opened Upptest

  datatype NodeStats = NodeStats(count: nat, failedCount: nat, passCount: nat) {

    /** Componentwise sum: `node_stats::operator +=`. */
    function Plus(o: NodeStats): NodeStats
    {
      NodeStats(count + o.count, failedCount + o.failedCount, passCount + o.passCount)
    }

    /** Every counted test passed, failed or was not run, so the two outcomes never exceed the total. */
    predicate Bounded()
    {
      passCount + failedCount <= count
    }
  }

  /** A default-constructed `node_stats`: all three counters zero. */
  const Zero: NodeStats := NodeStats(0, 0, 0)

  /** What a leaf reports for itself: one test, passed or failed according to its last status. */
  function LeafStats(st: Status): (r: NodeStats)
    ensures r.count == 1 && r.passCount <= 1 && r.failedCount <= 1
    ensures r.passCount == 1 <==> st == Pass
    ensures r.failedCount == 1 <==> st == Fail
    ensures r.Bounded()
  {
    NodeStats(1, if st == Fail then 1 else 0, if st == Pass then 1 else 0)
  }

  /** Adding two bounded totals gives a bounded total. */
  lemma PlusBounded(a: NodeStats, b: NodeStats)
    requires a.Bounded() && b.Bounded()
    ensures a.Plus(b).Bounded()
  {
  }

  /** `+=` is associative and has the default-constructed totals as identity. */
  lemma PlusMonoid(a: NodeStats, b: NodeStats, c: NodeStats)
    ensures a.Plus(b).Plus(c) == a.Plus(b.Plus(c))
    ensures Zero.Plus(a) == a && a.Plus(Zero) == a
  {
  }
}
