/** A run of the system on one board, with the event bus delivering a worker's
    messages to a fresh state manager in the order they were sent. The complete
    search of worker 0, the only search the service starts, leaves the state
    manager with exactly the solutions of the board. The row pipeline would
    leave the same solutions, but nothing in the service starts it. */
module Run {
  import opened Queens
  import opened JavaList
  import opened StateStore
  import Worker

  /** Worker 0 started with N = n: the summary the monitor then reads lists
      every n-queen solution once, in lexicographic order, and counts them. */
  method CompleteSearchSummary(n: nat) returns (s: Summary)
    ensures s.solutions == AllSolutions(n) && s.totalSolutions == |AllSolutions(n)|
    ensures forall q :: q in s.solutions <==> IsSolution(q, n)
    ensures StrictlySorted(s.solutions)
  {
    ghost var sols := AllSolutions(n);
    var store := new StateManagerVerticle();
    var worker := new Worker.WorkerVerticle(Some(0), Some(n), None, None);
    worker.StartProcessing();
    assert worker.sent == SolutionMessages(sols);
    store.ReceiveAll(worker.sent);
    SolutionMessagesRoundTrip(sols);
    assert store.completeSolutions == sols;
    s := store.GetSummary();
    forall q ensures q in sols <==> IsSolution(q, n) {
      AllSolutionsExact(n, q);
    }
    CompletionsSorted(n, []);
  }

  /** A worker whose range is the whole board (endRow defaults to N - 1) runs
      the row pipeline from generateInitialStates: the summary lists the same
      solutions, in the same order, as worker 0's complete search. The service
      never calls generateInitialStates, so this describes unreachable code. */
  method PipelineSummary(n: nat) returns (s: Summary)
    requires n >= 2
    ensures s.solutions == AllSolutions(n) && s.totalSolutions == |AllSolutions(n)|
  {
    var store := new StateManagerVerticle();
    var worker := new Worker.WorkerVerticle(Some(1), Some(n), None, None);
    worker.GenerateInitialStates();
    Worker.InitialPipelineReportsAllSolutions(n, n - 1);
    store.ReceiveAll(worker.sent);
    s := store.GetSummary();
  }
}
