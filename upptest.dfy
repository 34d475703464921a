/**
 * The pieces of the external test framework (upptest) that the test tree
 * relies on: a test descriptor, the three-valued run status, the result of
 * one run, and the runner entry point. The framework itself is not part of
 * this model; its runner is represented by an arbitrary function from
 * descriptor to result.
 */
module Upptest {

  datatype Option<T> = None | Some(value: T)

  /** Outcome of one run of a test. */
  datatype Status = NotRun | Pass | Fail

  /** A registered test: its own name and its separator-joined category path. */
  datatype Info = Info(name: string, category: string)

  /** What one run reports: a status and, for a failure, a message. */
  datatype TestResult = TestResult(status: Status, errMessage: string)

  /** A default-constructed result: nothing has been run yet. */
  const NotRunResult: TestResult := TestResult(NotRun, "")

  /**
   * The runner entry point. `outcome` is the (unknown) behaviour of the
   * framework; `calls` records, for the proofs only, which descriptors were
   * run and in which order.
   */
  class Runner {
    const outcome: Info -> TestResult
    ghost var calls: seq<Info>

    constructor (outcome: Info -> TestResult)
      ensures this.outcome == outcome && calls == []
    {
      this.outcome := outcome;
      calls := [];
    }

    /** Runs one test and reports its result. */
    method Run(i: Info) returns (r: TestResult)
      modifies this
      ensures r == outcome(i)
      ensures calls == old(calls) + [i]
    {
      r := outcome(i);
      calls := calls + [i];
    }
  }
}
