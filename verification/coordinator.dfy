/** OrquestadorVerticle: on a request it undeploys the previous run, deploys the
    state manager and the workers (each worker with its own range of rows),
    and then polls the state manager once per tick until its completion policy
    says the run is over. Deployment results, the clock and the state
    manager's replies are parameters of the methods. */
module Coordinator {
  import opened Config
  import opened JavaList
  import opened StateStore

  // ---------------------------------------------------------------------------
  // Request parameters

  /** The worker count used when the request names none: min(N, 4). */
  function DefaultWorkers(n: int): (w: int)
    ensures w <= 4 && w <= n && (w == 4 || w == n)
  {
    Min(n, 4)
  }

  /** For every valid board size the default worker count is a valid worker count. */
  lemma DefaultWorkersValid(n: int)
    requires IsValidBoardSize(n)
    ensures IsValidWorkerCount(DefaultWorkers(n))
  {
  }

  // ---------------------------------------------------------------------------
  // The row partition of deployWorkers

  /** The first row of worker i when n rows are shared by w workers: the first
      n % w workers take n / w + 1 rows, the others n / w. (For n >= 0 Java's
      truncating / and % agree with Dafny's.) */
  function StartRow(n: nat, w: int, i: int): int
    requires w >= 1
  {
    i * (n / w) + Min(i, n % w)
  }

  /** The last row of worker i; a worker with no rows has EndRow == StartRow - 1. */
  function EndRow(n: nat, w: int, i: int): int
    requires w >= 1
  {
    StartRow(n, w, i) + n / w - 1 + (if i < n % w then 1 else 0)
  }

  lemma MulStep(i: int, q: int)
    ensures (i + 1) * q == i * q + q
  {
  }

  lemma MulMonotone(i: int, j: int, q: nat)
    requires i <= j
    ensures i * q <= j * q
  {
  }

  /** The ranges are contiguous: worker 0 starts at row 0, each next worker
      starts right after the previous one ends, and the last worker ends at
      row n - 1. */
  lemma PartitionContiguous(n: nat, w: int, i: int)
    requires w >= 1 && 0 <= i < w
    ensures StartRow(n, w, 0) == 0
    ensures i + 1 < w ==> StartRow(n, w, i + 1) == EndRow(n, w, i) + 1
    ensures i == w - 1 ==> EndRow(n, w, i) == n - 1
  {
    var q, r := n / w, n % w;
    MulStep(i, q);
    if i == w - 1 {
      assert w * q + r == n;
      assert r <= i;
    }
  }

  /** The range sizes: n / w + 1 for the first n % w workers, n / w for the
      others, so any two differ by at most one. */
  lemma PartitionBalanced(n: nat, w: int, i: int, j: int)
    requires w >= 1 && 0 <= i < w && 0 <= j < w
    ensures EndRow(n, w, i) - StartRow(n, w, i) + 1 == n / w + (if i < n % w then 1 else 0)
    ensures -1 <= (EndRow(n, w, i) - StartRow(n, w, i)) - (EndRow(n, w, j) - StartRow(n, w, j)) <= 1
  {
  }

  /** With more workers than rows, every worker from n on gets the empty range
      starting at row n. */
  lemma TrailingRangesEmpty(n: nat, w: int, i: int)
    requires n < w && n <= i < w
    ensures StartRow(n, w, i) == n && EndRow(n, w, i) == n - 1
  {
    assert n / w == 0 && n % w == n;
  }

  /** Later workers never start earlier. */
  lemma StartRowMonotone(n: nat, w: int, i: int, j: int)
    requires w >= 1 && 0 <= i <= j
    ensures StartRow(n, w, i) <= StartRow(n, w, j)
  {
    MulMonotone(i, j, n / w);
  }

  /** Every row of the board lies in the range of some worker. */
  lemma PartitionCovers(n: nat, w: int, row: int)
    requires w >= 1 && 0 <= row < n
    ensures exists i :: 0 <= i < w && StartRow(n, w, i) <= row <= EndRow(n, w, i)
  {
    PartitionContiguous(n, w, 0);
    CoversFrom(n, w, 0, row);
  }

  lemma {:induction false} CoversFrom(n: nat, w: int, i: int, row: int)
    requires w >= 1 && 0 <= i < w && StartRow(n, w, i) <= row < n
    ensures exists j :: i <= j < w && StartRow(n, w, j) <= row <= EndRow(n, w, j)
    decreases w - i
  {
    PartitionContiguous(n, w, i);
    if row > EndRow(n, w, i) {
      CoversFrom(n, w, i + 1, row);
    }
  }

  /** No row lies in the ranges of two workers. */
  lemma PartitionDisjoint(n: nat, w: int, i: int, j: int, row: int)
    requires w >= 1 && 0 <= i < w && 0 <= j < w
    requires StartRow(n, w, i) <= row <= EndRow(n, w, i)
    requires StartRow(n, w, j) <= row <= EndRow(n, w, j)
    ensures i == j
  {
    if i < j {
      PartitionContiguous(n, w, i);
      StartRowMonotone(n, w, i + 1, j);
    } else if j < i {
      PartitionContiguous(n, w, j);
      StartRowMonotone(n, w, j + 1, i);
    }
  }

  // ---------------------------------------------------------------------------
  // The completion policy of monitorProgress

  datatype Decision = Finish(reason: string) | KeepPolling

  /** On each tick, in this order: some solution stored finishes the run;
      otherwise the 30th check does; otherwise more than 60 s since the
      request does; otherwise polling goes on. */
  function Decide(totalSolutions: int, checks: int, elapsedMs: int): (d: Decision)
    ensures d == Finish("soluciones encontradas") <==> totalSolutions > 0
    ensures d == Finish("timeout alcanzado") <==> totalSolutions <= 0 && checks >= 30
    ensures d == Finish("tiempo límite excedido") <==> totalSolutions <= 0 && checks < 30 && elapsedMs > 60000
    ensures d == KeepPolling <==> totalSolutions <= 0 && checks < 30 && elapsedMs <= 60000
  {
    if totalSolutions > 0 then Finish("soluciones encontradas")
    else if checks >= 30 then Finish("timeout alcanzado")
    else if elapsedMs > 60000 then Finish("tiempo límite excedido")
    else KeepPolling
  }

  /** The reply to the original request. */
  datatype Response =
    | Completed(n: int, totalSolutions: int, solutions: seq<seq<int>>, elapsedTimeMs: int,
                workersDeployed: int, status: string, reason: string)
    | TimedOut(n: int, status: string, elapsedTimeMs: int, workersDeployed: int, message: string)
    | Error(error: string)

  /** The periodic check of one request, with its own checkCount. */
  class ProgressMonitor {
    const n: int
    const startTime: int
    var checkCount: int
    /** The periodic timer has not been cancelled. */
    var active: bool

    constructor (n: int, startTime: int)
      ensures this.n == n && this.startTime == startTime
      ensures checkCount == 0 && active
    {
      this.n := n;
      this.startTime := startTime;
      checkCount := 0;
      active := true;
    }

    /** One tick: the count goes up first; then, when the summary request is
        answered, the policy decides on the new count, and a finishing
        decision cancels the timer and answers the request. A failed summary
        request changes nothing else. */
    method Tick(summary: Option<Summary>, now: int, workersDeployed: int) returns (reply: Option<Response>)
      requires active
      modifies this
      ensures checkCount == old(checkCount) + 1
      ensures summary.None? ==> reply.None? && active
      ensures summary.Some? ==>
        var d := Decide(summary.value.totalSolutions, checkCount, now - startTime);
        && (active <==> d == KeepPolling)
        && (reply.None? <==> d == KeepPolling)
        && (d.Finish? ==> reply == Some(Completed(n, summary.value.totalSolutions, summary.value.solutions,
                                                now - startTime, workersDeployed, "completed", d.reason)))
    {
      checkCount := checkCount + 1;
      var checks := checkCount;
      reply := None;
      if summary.Some? {
        var totalSolutions := summary.value.totalSolutions;
        var elapsedTime := now - startTime;
        var shouldFinish := false;
        var finishReason := "";
        if totalSolutions > 0 {
          shouldFinish := true;
          finishReason := "soluciones encontradas";
        } else if checks >= 30 {
          shouldFinish := true;
          finishReason := "timeout alcanzado";
        } else if elapsedTime > 60000 {
          shouldFinish := true;
          finishReason := "tiempo límite excedido";
        }
        if shouldFinish {
          active := false;
          reply := Some(Completed(n, totalSolutions, summary.value.solutions, elapsedTime,
                                  workersDeployed, "completed", finishReason));
        }
      }
    }

    /** The 65 s safety timer: cancel the periodic check and answer "timeout". */
    method SafetyTimeout(now: int, workersDeployed: int) returns (reply: Response)
      modifies this
      ensures !active && checkCount == old(checkCount)
      ensures reply == TimedOut(n, "timeout", now - startTime, workersDeployed, "Operación cancelada por timeout de seguridad")
    {
      active := false;
      reply := TimedOut(n, "timeout", now - startTime, workersDeployed, "Operación cancelada por timeout de seguridad");
    }
  }

  // ---------------------------------------------------------------------------
  // Deployment bookkeeping

  /** What deployVerticle reports for one deployment. */
  datatype Deployment = Deployed(id: string) | DeployFailed

  /** The configuration handed to worker workerId. */
  datatype WorkerConfig = WorkerConfig(workerId: int, n: int, startRow: int, endRow: int)

  /** The configurations of the first count of w workers sharing n rows. */
  function WorkerConfigs(n: nat, w: int, count: nat): (cs: seq<WorkerConfig>)
    requires w >= 1
    ensures |cs| == count
    ensures forall i :: 0 <= i < count ==> cs[i] == WorkerConfig(i, n, StartRow(n, w, i), EndRow(n, w, i))
  {
    seq(count, i => WorkerConfig(i, n, StartRow(n, w, i), EndRow(n, w, i)))
  }

  /** How deployWorkers ends: every worker deployed (their ids in worker
      order), some deployment failed, or N / numWorkers threw for zero workers. */
  datatype WorkersOutcome = AllDeployed(ids: seq<string>) | SomeFailed | DivisionByZero

  /** The ids of the successful deployments, in order. */
  function DeployedIds(results: seq<Deployment>): (ids: seq<string>)
    ensures |ids| <= |results|
  {
    if results == [] then [] else DeployedIds(results[..|results| - 1]) + IdOf(results[|results| - 1])
  }

  function IdOf(d: Deployment): seq<string>
  {
    match d
    case Deployed(id) => [id]
    case DeployFailed => []
  }

  predicate AllSucceeded(results: seq<Deployment>)
  {
    forall k :: 0 <= k < |results| ==> results[k].Deployed?
  }

  /** When every deployment succeeds, there is one id per deployment. */
  lemma {:induction false} AllSucceededIds(results: seq<Deployment>)
    requires AllSucceeded(results)
    ensures |DeployedIds(results)| == |results|
    ensures forall k :: 0 <= k < |results| ==> DeployedIds(results)[k] == results[k].id
    decreases |results|
  {
    if results != [] {
      AllSucceededIds(results[..|results| - 1]);
    }
  }

  /** One more deployment result: its id, if any, is appended, and all have
      succeeded exactly when the earlier ones and this one have. */
  lemma DeploymentsSnoc(results: seq<Deployment>, k: int)
    requires 0 <= k < |results|
    ensures DeployedIds(results[..k + 1]) == DeployedIds(results[..k]) + IdOf(results[k])
    ensures AllSucceeded(results[..k + 1]) <==> AllSucceeded(results[..k]) && results[k].Deployed?
  {
    var longer, shorter := results[..k + 1], results[..k];
    assert longer[..k] == shorter && longer[k] == results[k];
    if AllSucceeded(shorter) && results[k].Deployed? {
      forall j | 0 <= j < k + 1 ensures longer[j].Deployed? {
        if j < k {
          assert longer[j] == shorter[j];
        }
      }
    }
    if AllSucceeded(longer) {
      forall j | 0 <= j < k ensures shorter[j].Deployed? {
        assert shorter[j] == longer[j];
      }
    }
  }

  class OrquestadorVerticle {
    var workersDeployed: int
    var deploymentIds: seq<string>

    constructor ()
      ensures workersDeployed == 0 && deploymentIds == []
    {
      workersDeployed := 0;
      deploymentIds := [];
    }

    /** resetState: every recorded deployment is undeployed and forgotten, and
        the count is zeroed; the state manager is asked to reset only when
        there was something to undeploy. */
    method ResetState() returns (undeployed: seq<string>, resetRequested: bool)
      modifies this
      ensures undeployed == old(deploymentIds)
      ensures resetRequested <==> old(deploymentIds) != []
      ensures deploymentIds == [] && workersDeployed == 0
    {
      undeployed := [];
      var i := 0;
      while i < |deploymentIds|
        invariant 0 <= i <= |deploymentIds|
        invariant undeployed == deploymentIds[..i]
      {
        assert deploymentIds[..i + 1] == deploymentIds[..i] + [deploymentIds[i]];
        undeployed := undeployed + [deploymentIds[i]];
        i := i + 1;
      }
      assert deploymentIds[..i] == deploymentIds;
      deploymentIds := [];
      workersDeployed := 0;
      resetRequested := undeployed != [];
    }

    /** deployStateManager: a successful deployment records its id; the
        worker count is not touched. */
    method DeployStateManager(result: Deployment) returns (id: Option<string>)
      modifies this
      ensures result.Deployed? ==> id == Some(result.id) && deploymentIds == old(deploymentIds) + [result.id]
      ensures result.DeployFailed? ==> id.None? && deploymentIds == old(deploymentIds)
      ensures workersDeployed == old(workersDeployed)
    {
      match result
      case Deployed(deploymentId) =>
        deploymentIds := deploymentIds + [deploymentId];
        id := Some(deploymentId);
      case DeployFailed =>
        id := None;
    }

    /** deployWorkers: worker i gets the range [StartRow, EndRow] of the
        partition; each successful deployment records its id and counts one
        worker. results[i] is what the deployment of worker i reports. */
    method DeployWorkers(n: nat, numWorkers: int, results: seq<Deployment>)
      returns (configs: seq<WorkerConfig>, outcome: WorkersOutcome)
      requires |results| == if numWorkers > 0 then numWorkers else 0
      modifies this
      ensures numWorkers == 0 ==>
        outcome == DivisionByZero && configs == [] &&
        deploymentIds == old(deploymentIds) && workersDeployed == old(workersDeployed)
      ensures numWorkers != 0 ==>
        && |configs| == |results|
        && (numWorkers > 0 ==> configs == WorkerConfigs(n, numWorkers, numWorkers))
        && deploymentIds == old(deploymentIds) + DeployedIds(results)
        && workersDeployed == old(workersDeployed) + |DeployedIds(results)|
        && outcome == if AllSucceeded(results) then AllDeployed(DeployedIds(results)) else SomeFailed
    {
      if numWorkers == 0 {
        return [], DivisionByZero;
      }
      var rowsPerWorker := n / numWorkers;
      var remainingRows := n % numWorkers;
      configs := [];
      var ids: seq<string> := [];
      var allOk := true;
      var i := 0;
      while i < numWorkers
        invariant 0 <= i <= |results|
        invariant |configs| == i
        invariant numWorkers > 0 ==> configs == WorkerConfigs(n, numWorkers, i)
        invariant ids == DeployedIds(results[..i])
        invariant deploymentIds == old(deploymentIds) + ids
        invariant workersDeployed == old(workersDeployed) + |ids|
        invariant allOk <==> AllSucceeded(results[..i])
        decreases numWorkers - i
      {
        var startRow := i * rowsPerWorker + Min(i, remainingRows);
        var endRow := startRow + rowsPerWorker - 1 + (if i < remainingRows then 1 else 0);
        assert startRow == StartRow(n, numWorkers, i) && endRow == EndRow(n, numWorkers, i);
        assert WorkerConfigs(n, numWorkers, i + 1) == WorkerConfigs(n, numWorkers, i) + [WorkerConfig(i, n, startRow, endRow)];
        configs := configs + [WorkerConfig(i, n, startRow, endRow)];
        DeploymentsSnoc(results, i);
        match results[i] {
          case Deployed(deploymentId) =>
            deploymentIds := deploymentIds + [deploymentId];
            workersDeployed := workersDeployed + 1;
            ids := ids + [deploymentId];
          case DeployFailed =>
            allOk := false;
        }
        i := i + 1;
      }
      assert results[..i] == results;
      outcome := if allOk then AllDeployed(ids) else SomeFailed;
    }

    /** handleNQueensRequest: N defaults to 8 and the worker count to min(N, 4);
        the previous run is reset, then the state manager and the workers are
        deployed, and when all of them are up a progress monitor starts. A
        failed deployment answers the request with an error; zero workers
        makes the row partition divide by zero, which ends the handler with
        no answer. */
    method HandleRequest(nEntry: Option<nat>, workersEntry: Option<int>, stateManager: Deployment,
                         workerResults: seq<Deployment>, startTime: int)
      returns (n: nat, numWorkers: int, reply: Option<Response>, monitor: ProgressMonitor?)
      requires var n := if nEntry.Some? then nEntry.value else DEFAULT_BOARD_SIZE;
        var w := GetInteger(workersEntry, DefaultWorkers(n));
        |workerResults| == if w > 0 then w else 0
      modifies this
      ensures n == if nEntry.Some? then nEntry.value else DEFAULT_BOARD_SIZE
      ensures numWorkers == GetInteger(workersEntry, DefaultWorkers(n))
      ensures stateManager.DeployFailed? ==>
        reply == Some(Error("Failed to deploy StateManager")) && monitor == null &&
        deploymentIds == [] && workersDeployed == 0
      ensures stateManager.Deployed? && numWorkers == 0 ==>
        reply.None? && monitor == null && deploymentIds == [stateManager.id] && workersDeployed == 0
      ensures stateManager.Deployed? && numWorkers != 0 ==>
        && deploymentIds == [stateManager.id] + DeployedIds(workerResults)
        && workersDeployed == |DeployedIds(workerResults)|
        && (AllSucceeded(workerResults) ==>
              reply.None? && monitor != null && fresh(monitor) && monitor.n == n &&
              monitor.startTime == startTime && monitor.checkCount == 0 && monitor.active)
        && (!AllSucceeded(workerResults) ==> reply == Some(Error("Failed to deploy workers")) && monitor == null)
    {
      n := if nEntry.Some? then nEntry.value else DEFAULT_BOARD_SIZE;
      numWorkers := GetInteger(workersEntry, DefaultWorkers(n));
      reply := None;
      monitor := null;
      var _, _ := ResetState();
      var stateManagerId := DeployStateManager(stateManager);
      if stateManagerId.None? {
        reply := Some(Error("Failed to deploy StateManager"));
        return;
      }
      var _, outcome := DeployWorkers(n, numWorkers, workerResults);
      match outcome {
        case AllDeployed(_) =>
          monitor := new ProgressMonitor(n, startTime);
        case SomeFailed =>
          reply := Some(Error("Failed to deploy workers"));
        case DivisionByZero =>
      }
    }
  }
}
