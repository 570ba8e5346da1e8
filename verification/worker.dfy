/** WorkerVerticle: a worker of the distributed search. Worker 0 runs a complete
    backtracking search and reports every solution to the state manager; the
    row pipeline (generateInitialStates, processNextRow, processWorkUnit) grows
    the partial placements one row at a time, publishing each row to the state
    manager and reporting the placements that reach the last row as solutions.
    Nothing in the service starts the pipeline: generateInitialStates has no
    caller and no code sends to the worker.<id>.process consumer.
    The event bus is the field `sent`: sending a message appends it. */
module Worker {
  import opened Queens
  import opened Config
  import opened JavaList
  import opened StateStore
  import Algorithm

  // ---------------------------------------------------------------------------
  // The row pipeline, as a specification

  /** The one-queen placements of the first row: [0], [1], ..., [n-1]. */
  function FirstRow(n: nat): seq<seq<int>>
  {
    if n == 0 then [] else FirstRow(n - 1) + [[n - 1]]
  }

  /** The extensions of state by one Safe column of its next row, among
      columns 0..c-1, in ascending column order. */
  function Children(state: seq<int>, c: nat): seq<seq<int>>
  {
    if c == 0 then []
    else Children(state, c - 1) + (if Safe(state, |state|, c - 1) then [state + [c - 1]] else [])
  }

  /** One round of processNextRow: the children of every previous state, state by state. */
  function Expansion(n: nat, states: seq<seq<int>>): seq<seq<int>>
  {
    if states == [] then []
    else Expansion(n, states[..|states| - 1]) + Children(states[|states| - 1], n)
  }

  /** The messages processNextRow(currentRow, prev) sends, with every reply
      succeeding: past the last row the previous states are reported as
      solutions; otherwise their expansion, when not empty, is published as
      row currentRow + 1, and the worker goes on with it while that row is
      within its range. */
  function RowMessages(n: nat, endRow: int, currentRow: int, prev: seq<seq<int>>): (msgs: seq<Message>)
    ensures currentRow < endRow + 1 < n ==> forall m :: m in msgs ==> m.StateUpdate?
    decreases n - currentRow
  {
    var nextRow := currentRow + 1;
    if nextRow >= n then SolutionMessages(prev)
    else
      var next := Expansion(n, prev);
      if next == [] then []
      else [StateUpdate(nextRow, next)] + (if nextRow <= endRow then RowMessages(n, endRow, nextRow, next) else [])
  }

  // ---------------------------------------------------------------------------
  // What the pipeline computes

  /** The first row holds every one-queen placement. */
  lemma {:induction false} FirstRowIsFirstLevel(n: nat)
    requires n >= 1
    ensures FirstRow(n) == Placements(n, 1, [])
  {
    FirstRowChildren(n, n);
    LastLevelChildren(n, 0, [], n);
  }

  lemma {:induction false} FirstRowChildren(n: nat, c: nat)
    requires c <= n
    ensures Children([], c) == FirstRow(c)
    decreases c
  {
    if c > 0 {
      FirstRowChildren(n, c - 1);
      assert Safe([], 0, c - 1);
      assert [] + [c - 1] == [c - 1];
    }
  }

  /** One row short of the target, the placements below p are its children. */
  lemma {:induction false} LastLevelChildren(n: nat, k: nat, p: seq<int>, c: nat)
    requires |p| == k < n && c <= n
    ensures PlacementsUpTo(n, k + 1, p, c) == Children(p, c)
    decreases c
  {
    if c > 0 {
      LastLevelChildren(n, k, p, c - 1);
    }
  }

  /** Each child is the state plus one column below c that is Safe for the next row. */
  lemma {:induction false} ChildrenExtend(state: seq<int>, c: nat)
    ensures forall q :: q in Children(state, c) ==>
      |q| == |state| + 1 && q[..|state|] == state && 0 <= q[|state|] < c && Safe(state, |state|, q[|state|])
    decreases c
  {
    if c > 0 {
      ChildrenExtend(state, c - 1);
      var q := state + [c - 1];
      assert q[..|state|] == state && q[|state|] == c - 1;
    }
  }

  /** Every state of an expansion is one of the previous states with one more
      column, on the board and Safe for its row. */
  lemma {:induction false} ExpansionExtends(n: nat, states: seq<seq<int>>)
    ensures forall q :: q in Expansion(n, states) ==>
      |q| >= 1 && q[..|q| - 1] in states && 0 <= q[|q| - 1] < n && Safe(q[..|q| - 1], |q| - 1, q[|q| - 1])
    decreases |states|
  {
    if states != [] {
      var front, last := states[..|states| - 1], states[|states| - 1];
      ExpansionExtends(n, front);
      ChildrenExtend(last, n);
      forall q | q in Expansion(n, states)
        ensures |q| >= 1 && q[..|q| - 1] in states && 0 <= q[|q| - 1] < n && Safe(q[..|q| - 1], |q| - 1, q[|q| - 1])
      {
        if q in Expansion(n, front) {
          assert q[..|q| - 1] in front;
        } else {
          assert q in Children(last, n);
          assert |q| - 1 == |last|;
        }
      }
    }
  }

  /** From consistent placements of k queens, an expansion yields only
      consistent placements of k + 1 queens. */
  lemma ExpansionConsistent(n: nat, states: seq<seq<int>>, k: nat)
    requires forall s :: s in states ==> |s| == k && Consistent(s, n)
    ensures forall q :: q in Expansion(n, states) ==> |q| == k + 1 && Consistent(q, n)
  {
    ExpansionExtends(n, states);
    forall q | q in Expansion(n, states) ensures |q| == k + 1 && Consistent(q, n) {
      var parent := q[..|q| - 1];
      assert q == parent + [q[|q| - 1]];
      ConsistentSnoc(parent, q[|q| - 1], n);
    }
  }

  /** Expanding a concatenation expands each part in turn. */
  lemma {:induction false} ExpansionConcat(n: nat, a: seq<seq<int>>, b: seq<seq<int>>)
    ensures Expansion(n, a + b) == Expansion(n, a) + Expansion(n, b)
    decreases |b|
  {
    if b == [] {
      assert a + b == a;
    } else {
      var b' := b[..|b| - 1];
      assert (a + b)[..|a + b| - 1] == a + b';
      assert (a + b)[|a + b| - 1] == b[|b| - 1];
      ExpansionConcat(n, a, b');
      ConcatAssociative(Expansion(n, a), Expansion(n, b'), Children(b[|b| - 1], n));
    }
  }

  /** One round of the pipeline takes the placements of k queens below p to the
      placements of k + 1 queens below p, in the same order. */
  lemma {:induction false} PlacementsNextLevel(n: nat, k: nat, p: seq<int>)
    requires |p| <= k < n
    ensures Placements(n, k + 1, p) == Expansion(n, Placements(n, k, p))
    decreases k - |p|, n + 1
  {
    if |p| == k {
      LastLevelChildren(n, k, p, n);
      assert [p][..0] == [];
    } else {
      PlacementsUpToNextLevel(n, k, p, n);
    }
  }

  lemma {:induction false} PlacementsUpToNextLevel(n: nat, k: nat, p: seq<int>, c: nat)
    requires |p| < k < n && c <= n
    ensures PlacementsUpTo(n, k + 1, p, c) == Expansion(n, PlacementsUpTo(n, k, p, c))
    decreases k - |p|, c
  {
    if c > 0 {
      var before := PlacementsUpTo(n, k, p, c - 1);
      PlacementsUpToNextLevel(n, k, p, c - 1);
      if Safe(p, |p|, c - 1) {
        var below := Placements(n, k, p + [c - 1]);
        PlacementsNextLevel(n, k, p + [c - 1]);
        ExpansionConcat(n, before, below);
        calc {
          PlacementsUpTo(n, k + 1, p, c);
          PlacementsUpTo(n, k + 1, p, c - 1) + Placements(n, k + 1, p + [c - 1]);
          Expansion(n, before) + Expansion(n, below);
          Expansion(n, before + below);
          Expansion(n, PlacementsUpTo(n, k, p, c));
        }
      } else {
        calc {
          PlacementsUpTo(n, k + 1, p, c);
          PlacementsUpTo(n, k + 1, p, c - 1) + [];
          Expansion(n, before);
          { assert before + [] == before; }
          Expansion(n, before + []);
          Expansion(n, PlacementsUpTo(n, k, p, c));
        }
      }
    }
  }

  /** Once a row has no placements, no later row has any. */
  lemma {:induction false} EmptyLevelStaysEmpty(n: nat, k: nat, j: nat)
    requires k <= j <= n && Placements(n, k, []) == []
    ensures Placements(n, j, []) == []
    decreases j - k
  {
    if k < j {
      PlacementsNextLevel(n, k, []);
      EmptyLevelStaysEmpty(n, k + 1, j);
    }
  }

  /** From the placements of r + 1 queens, a worker whose range reaches the last
      row reports exactly the solutions of the full search, in its order. */
  lemma {:induction false} PipelineReportsAllSolutions(n: nat, endRow: int, r: nat, prev: seq<seq<int>>)
    requires r < n && endRow >= n - 1 && prev == Placements(n, r + 1, [])
    ensures SolutionsIn(RowMessages(n, endRow, r, prev)) == AllSolutions(n)
    decreases n - r
  {
    PlacementsFull(n, []);
    if r + 1 == n {
      assert RowMessages(n, endRow, r, prev) == SolutionMessages(prev);
      SolutionMessagesRoundTrip(prev);
    } else {
      var k := r + 1;
      PlacementsNextLevel(n, k, []);
      var next := Expansion(n, prev);
      assert next == Placements(n, k + 1, []);
      if next == [] {
        EmptyLevelStaysEmpty(n, k + 1, n);
        assert RowMessages(n, endRow, r, prev) == [];
      } else {
        var rest := RowMessages(n, endRow, k, next);
        RowMessagesStep(n, endRow, r, prev, next);
        PipelineReportsAllSolutions(n, endRow, k, next);
        SolutionsInCons(StateUpdate(k, next), rest);
      }
    }
  }

  /** Every row the pipeline publishes, from the placements of r + 1 queens, is a
      later row that holds exactly the placements of one queen more than its
      number: bucket "row_j" receives the placements of j + 1 queens. */
  lemma {:induction false} PipelinePublishesLevels(n: nat, endRow: int, r: nat)
    requires r < n
    ensures forall m :: m in RowMessages(n, endRow, r, Placements(n, r + 1, [])) && m.StateUpdate? ==>
      r < m.row < n && m.states == Placements(n, m.row + 1, [])
    decreases n - r
  {
    var k := r + 1;
    var prev := Placements(n, k, []);
    if k < n {
      var next := Expansion(n, prev);
      PlacementsNextLevel(n, k, []);
      assert next == Placements(n, k + 1, []);
      RowMessagesMembers(n, endRow, r, prev, next);
      if next != [] && k <= endRow {
        PipelinePublishesLevels(n, endRow, k);
      }
    } else {
      LastRowReportsSolutions(n, endRow, r, prev);
    }
  }

  /** Past the last row the pipeline only reports solutions. */
  lemma LastRowReportsSolutions(n: nat, endRow: int, r: int, prev: seq<seq<int>>)
    requires r + 1 >= n
    ensures forall m :: m in RowMessages(n, endRow, r, prev) ==> m.SolutionFound?
  {
    var msgs := SolutionMessages(prev);
    assert RowMessages(n, endRow, r, prev) == msgs;
    forall m | m in msgs ensures m.SolutionFound? {
      var i :| 0 <= i < |msgs| && msgs[i] == m;
    }
  }

  /** Before the last row, a message of the pipeline is the next row's update
      or a message of the pipeline from that row. */
  lemma RowMessagesMembers(n: nat, endRow: int, r: int, prev: seq<seq<int>>, next: seq<seq<int>>)
    requires r + 1 < n && next == Expansion(n, prev)
    ensures forall m :: m in RowMessages(n, endRow, r, prev) ==>
      m == StateUpdate(r + 1, next) || (r + 1 <= endRow && m in RowMessages(n, endRow, r + 1, next))
  {
    RowMessagesStep(n, endRow, r, prev, next);
  }

  /** One step of the pipeline before the last row: the expansion, when not
      empty, is published as the next row and followed by that row's messages
      when it is within range; an empty expansion ends the pipeline. */
  lemma RowMessagesStep(n: nat, endRow: int, r: int, prev: seq<seq<int>>, next: seq<seq<int>>)
    requires r + 1 < n && next == Expansion(n, prev)
    ensures RowMessages(n, endRow, r, prev) ==
      if next == [] then []
      else [StateUpdate(r + 1, next)] + (if r + 1 <= endRow then RowMessages(n, endRow, r + 1, next) else [])
  {
  }

  /** A worker whose range ends before the last row never reports a solution. */
  lemma ShortRangeReportsNothing(n: nat, endRow: int, r: int, prev: seq<seq<int>>)
    requires r < endRow + 1 < n
    ensures SolutionsIn(RowMessages(n, endRow, r, prev)) == []
  {
    NoSolutionsIn(RowMessages(n, endRow, r, prev));
  }

  /** The pipeline started by generateInitialStates on a worker whose range
      covers every row reports the same solutions, in the same order, as worker
      0's complete search. */
  lemma InitialPipelineReportsAllSolutions(n: nat, endRow: int)
    requires n >= 1 && endRow > 0 && endRow >= n - 1
    ensures SolutionsIn([StateUpdate(0, FirstRow(n))] + RowMessages(n, endRow, 0, FirstRow(n))) == AllSolutions(n)
  {
    var first := FirstRow(n);
    var update := [StateUpdate(0, first)];
    var rest := RowMessages(n, endRow, 0, first);
    FirstRowIsFirstLevel(n);
    PipelineReportsAllSolutions(n, endRow, 0, first);
    assert SolutionsIn(rest) == AllSolutions(n);
    SolutionsInCons(StateUpdate(0, first), rest);
  }

  // ---------------------------------------------------------------------------
  // The verticle

  class WorkerVerticle {
    const workerId: int
    const n: nat
    const startRow: int
    const endRow: int
    /** Messages this worker has put on the event bus, oldest first. */
    var sent: seq<Message>

    /** The configuration read by start(): workerId defaults to 0, N to 8,
        startRow to 0 and endRow to N - 1. */
    constructor (workerIdEntry: Option<int>, nEntry: Option<nat>, startRowEntry: Option<int>, endRowEntry: Option<int>)
      ensures workerId == GetInteger(workerIdEntry, 0)
      ensures n == if nEntry.Some? then nEntry.value else DEFAULT_BOARD_SIZE
      ensures startRow == GetInteger(startRowEntry, 0)
      ensures endRow == GetInteger(endRowEntry, n - 1)
      ensures sent == []
    {
      workerId := GetInteger(workerIdEntry, 0);
      n := if nEntry.Some? then nEntry.value else DEFAULT_BOARD_SIZE;
      startRow := GetInteger(startRowEntry, 0);
      endRow := GetInteger(endRowEntry, if nEntry.Some? then nEntry.value - 1 else DEFAULT_BOARD_SIZE - 1);
      sent := [];
    }

    /** The address the worker takes work units on: the one the configuration
        assigns to its id. */
    function ProcessAddress(): (addr: string)
      ensures addr == GetWorkerAddress(workerId)
    {
      "worker." + DecimalString(workerId) + ".process"
    }

    /** isValidPosition: the new queen goes in row currentState.size(). */
    method IsValidPosition(currentState: seq<int>, newCol: int) returns (ok: bool)
      ensures ok == Safe(currentState, |currentState|, newCol)
    {
      ok := Algorithm.IsValidPosition(currentState, |currentState|, newCol);
    }

    /** findAllSolutions: backtracking over the columns of each row, copying
        every full placement into allSolutions. */
    method FindAllSolutions(row: int, currentSolution: ArrayList<int>, allSolutions: ArrayList<seq<int>>)
      requires row == |currentSolution.elems| <= n
      modifies currentSolution, allSolutions
      ensures currentSolution.elems == old(currentSolution.elems)
      ensures allSolutions.elems == old(allSolutions.elems) + Completions(n, old(currentSolution.elems))
      decreases n - row
    {
      if row == n {
        allSolutions.Add(currentSolution.elems);
        return;
      }
      ghost var p := currentSolution.elems;
      var col := 0;
      while col < n
        invariant 0 <= col <= n
        invariant currentSolution.elems == p
        invariant allSolutions.elems == old(allSolutions.elems) + CompletionsUpTo(n, p, col)
      {
        var ok := IsValidPosition(currentSolution.elems, col);
        if ok {
          currentSolution.Add(col);
          FindAllSolutions(row + 1, currentSolution, allSolutions);
          currentSolution.Remove(currentSolution.Size() - 1);
          assert currentSolution.elems == p;
        }
        col := col + 1;
      }
    }

    /** solveNQueensComplete: the full search, then one "solution.found" per
        solution, in the order found. */
    method SolveNQueensComplete()
      modifies this
      ensures sent == old(sent) + SolutionMessages(AllSolutions(n))
    {
      var allSolutions := new ArrayList<seq<int>>();
      var currentSolution := new ArrayList<int>();
      FindAllSolutions(0, currentSolution, allSolutions);
      assert allSolutions.elems == AllSolutions(n);
      SendSolutions(allSolutions.elems);
    }

    /** The loop shared by solveNQueensComplete and processNextRow: one
        "solution.found" per placement, in order. */
    method SendSolutions(solutions: seq<seq<int>>)
      modifies this
      ensures sent == old(sent) + SolutionMessages(solutions)
    {
      var i := 0;
      while i < |solutions|
        invariant 0 <= i <= |solutions|
        invariant sent == old(sent) + SolutionMessages(solutions[..i])
      {
        assert SolutionMessages(solutions[..i + 1]) == SolutionMessages(solutions[..i]) + [SolutionFound(solutions[i])];
        sent := sent + [SolutionFound(solutions[i])];
        i := i + 1;
      }
      assert solutions[..i] == solutions;
    }

    /** startProcessing: only worker 0 searches; the others wait for work units. */
    method StartProcessing()
      modifies this
      ensures sent == old(sent) + if workerId == 0 then SolutionMessages(AllSolutions(n)) else []
    {
      if workerId == 0 {
        SolveNQueensComplete();
      }
    }

    /** processNextRow: report the previous states as solutions past the last
        row; otherwise expand them by one row, publish the expansion when it
        is not empty, and continue with it while the row is within range. */
    method ProcessNextRow(currentRow: int, previousStates: seq<seq<int>>)
      modifies this
      ensures sent == old(sent) + RowMessages(n, endRow, currentRow, previousStates)
      decreases n - currentRow
    {
      var nextRow := currentRow + 1;
      if nextRow >= n {
        SendSolutions(previousStates);
        return;
      }
      var nextStates := ExpandStates(previousStates);
      if nextStates != [] {
        var update := [StateUpdate(nextRow, nextStates)];
        sent := sent + update;
        if nextRow <= endRow {
          ProcessNextRow(nextRow, nextStates);
          ConcatAssociative(old(sent), update, RowMessages(n, endRow, nextRow, nextStates));
        } else {
          assert update + [] == update;
        }
      }
    }

    /** The expansion loop of processNextRow: for each previous state, in order,
        a copy extended by every valid column of its next row, in ascending order. */
    method ExpandStates(previousStates: seq<seq<int>>) returns (nextStates: seq<seq<int>>)
      ensures nextStates == Expansion(n, previousStates)
    {
      nextStates := [];
      var i := 0;
      while i < |previousStates|
        invariant 0 <= i <= |previousStates|
        invariant nextStates == Expansion(n, previousStates[..i])
      {
        var prevState := previousStates[i];
        var col := 0;
        while col < n
          invariant 0 <= col <= n
          invariant nextStates == Expansion(n, previousStates[..i]) + Children(prevState, col)
        {
          var ok := IsValidPosition(prevState, col);
          if ok {
            nextStates := nextStates + [prevState + [col]];
          }
          col := col + 1;
        }
        assert previousStates[..i + 1][..i] == previousStates[..i];
        i := i + 1;
      }
      assert previousStates[..i] == previousStates;
    }

    /** generateInitialStates (never called in the service): publish the first
        row as row 0, then run the pipeline from it when the range goes past
        row 0. */
    method GenerateInitialStates()
      modifies this
      ensures sent == old(sent) + [StateUpdate(0, FirstRow(n))] +
        if endRow > 0 then RowMessages(n, endRow, 0, FirstRow(n)) else []
    {
      var initialStates: seq<seq<int>> := [];
      var col := 0;
      while col < n
        invariant 0 <= col <= n
        invariant initialStates == FirstRow(col)
      {
        initialStates := initialStates + [[col]];
        col := col + 1;
      }
      assert initialStates == FirstRow(n);
      sent := sent + [StateUpdate(0, initialStates)];
      if endRow > 0 {
        ProcessNextRow(0, initialStates);
      } else {
        assert sent + [] == sent;
      }
    }

    /** processWorkUnit: run processNextRow on the unit's row and states and
        reply "processing". */
    method ProcessWorkUnit(row: int, states: seq<seq<int>>) returns (status: string)
      modifies this
      ensures sent == old(sent) + RowMessages(n, endRow, row, states)
      ensures status == "processing"
    {
      ProcessNextRow(row, states);
      status := "processing";
    }
  }
}
