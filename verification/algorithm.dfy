/** NQueensAlgorithm: the conflict check, the board rendering and the three
    solver strategies behind the template method findAllSolutions. The two
    backtracking solvers are proved to report exactly Queens.Completions, so
    they agree with each other and with the solution predicate; the distributed
    solver does so only once its delegate is initialized. statesExplored is a
    Java int, bumped with wrap-around. */
module Algorithm {
  import opened Queens
  import opened JavaList
  import opened Config
  import FourQueens

  datatype Strategy = ClassicBacktracking | OptimizedBacktracking | DistributedDP

  /** The Java exceptions the solvers can raise. */
  datatype JavaException = NullPointerException | NegativeArraySizeException

  /** How a call that returns nothing ended: normally, or with an exception. */
  datatype Status = Completed | Threw(exception: JavaException)

  /** A value, or the exception raised instead of returning it. */
  datatype Outcome<T> = Ok(value: T) | Thrown(exception: JavaException)

  /** NQueensAlgorithm.Result; the execution time is taken by the caller from a clock. */
  datatype Result = Result(solutions: seq<seq<int>>, executionTimeMs: int, statesExplored: int, strategy: Strategy)
  {
    function SolutionCount(): (k: nat)
      ensures k == |solutions|
    {
      |solutions|
    }
  }

  /** For a result holding the search's list, SolutionCount is the number of
      distinct placements that solve the board. */
  lemma SolutionCountCountsSolutions(n: nat, r: Result)
    requires r.solutions == AllSolutions(n)
    ensures r.SolutionCount() == |set q | q in r.solutions|
    ensures forall q :: q in r.solutions <==> IsSolution(q, n)
  {
    SolutionsCounted(n);
  }

  /** isValidPosition: scans the queens of rows 0..row-1 and rejects col as soon as
      one of them shares its column or a diagonal. */
  method IsValidPosition(board: seq<int>, row: int, col: int) returns (ok: bool)
    requires row <= |board|
    ensures ok == Safe(board, row, col)
  {
    var i := 0;
    while i < row
      invariant 0 <= i <= |board| && (row >= 0 ==> i <= row)
      invariant forall k :: 0 <= k < i ==> board[k] != col && Abs(k - row) != Abs(board[k] - col)
    {
      var queenCol := board[i];
      if queenCol == col {
        return false;
      }
      if Abs(i - row) == Abs(queenCol - col) {
        return false;
      }
      i := i + 1;
    }
    return true;
  }

  // ---------------------------------------------------------------------------
  // solutionToBoard

  /** The first k cells of line row: "Q " where the queen stands, ". " elsewhere. */
  function Cells(s: seq<int>, row: nat, k: nat): string
    requires row < |s|
  {
    if k == 0 then "" else Cells(s, row, k - 1) + (if s[row] == k - 1 then "Q " else ". ")
  }

  /** The line drawn for one row of the board. */
  function Line(s: seq<int>, row: nat): string
    requires row < |s|
  {
    Cells(s, row, |s|) + "\n"
  }

  /** The first k lines of the drawing. */
  function Lines(s: seq<int>, k: nat): string
    requires k <= |s|
  {
    if k == 0 then "" else Lines(s, k - 1) + Line(s, k - 1)
  }

  /** The whole drawing of a placement. */
  function BoardText(s: seq<int>): string
  {
    Lines(s, |s|)
  }

  /** solutionToBoard: two nested loops appending to a StringBuilder. */
  method SolutionToBoard(solution: seq<int>) returns (board: string)
    ensures board == BoardText(solution)
  {
    var n := |solution|;
    board := "";
    var row := 0;
    while row < n
      invariant 0 <= row <= n
      invariant board == Lines(solution, row)
    {
      ghost var above := board;
      var col := 0;
      while col < n
        invariant 0 <= col <= n
        invariant board == above + Cells(solution, row, col)
      {
        if solution[row] == col {
          board := board + "Q ";
        } else {
          board := board + ". ";
        }
        col := col + 1;
      }
      board := board + "\n";
      row := row + 1;
    }
  }

  lemma {:induction false} CellsShape(s: seq<int>, row: nat, k: nat, col: nat)
    requires row < |s| && col < k
    ensures |Cells(s, row, k)| == 2 * k
    ensures Cells(s, row, k)[2 * col] == (if s[row] == col then 'Q' else '.')
    ensures Cells(s, row, k)[2 * col + 1] == ' '
  {
    if col < k - 1 {
      CellsShape(s, row, k - 1, col);
    } else if k > 1 {
      CellsShape(s, row, k - 1, 0);
    }
  }

  /** The first k lines take k * (2N + 1) characters: line k starts there, and the
      whole drawing is N * (2N + 1) characters long. */
  lemma {:induction false} LinesLength(s: seq<int>, k: nat)
    requires k <= |s|
    ensures |Lines(s, k)| == k * (2 * |s| + 1)
  {
    if k > 0 {
      LinesLength(s, k - 1);
      if |s| > 0 {
        CellsShape(s, k - 1, |s|, 0);
      }
      assert |Line(s, k - 1)| == 2 * |s| + 1;
      assert (k - 1) * (2 * |s| + 1) + (2 * |s| + 1) == k * (2 * |s| + 1);
    }
  }

  /** A drawing of fewer lines is a prefix of one of more lines. */
  lemma {:induction false} LinesPrefix(s: seq<int>, j: nat, k: nat)
    requires j <= k <= |s|
    ensures Lines(s, j) <= Lines(s, k)
    decreases k
  {
    if j < k {
      LinesPrefix(s, j, k - 1);
    }
  }

  /** Character x of line row sits right after the lines above it. */
  lemma BoardCharAt(s: seq<int>, row: nat, x: nat)
    requires row < |s| && x < 2 * |s| + 1
    ensures |Line(s, row)| == 2 * |s| + 1
    ensures |Lines(s, row)| + x < |BoardText(s)|
    ensures BoardText(s)[|Lines(s, row)| + x] == Line(s, row)[x]
  {
    if |s| > 0 {
      CellsShape(s, row, |s|, 0);
    }
    LinesPrefix(s, row + 1, |s|);
    assert Lines(s, row + 1) == Lines(s, row) + Line(s, row);
  }

  /** The first character of the cell of column col on line row (line row starts
      at offset row * (2N + 1), by LinesLength): 'Q' exactly where the queen is. */
  lemma BoardCellMark(s: seq<int>, row: nat, col: nat)
    requires row < |s| && col < |s|
    ensures |Lines(s, row)| + 2 * col < |BoardText(s)|
    ensures BoardText(s)[|Lines(s, row)| + 2 * col] == (if s[row] == col then 'Q' else '.')
  {
    LineShape(s, row, col);
    BoardCharAt(s, row, 2 * col);
  }

  /** The second character of every cell is a blank. */
  lemma BoardCellSpace(s: seq<int>, row: nat, col: nat)
    requires row < |s| && col < |s|
    ensures |Lines(s, row)| + 2 * col + 1 < |BoardText(s)|
    ensures BoardText(s)[|Lines(s, row)| + 2 * col + 1] == ' '
  {
    var x := 2 * col + 1;
    LineShape(s, row, col);
    assert x < 2 * |s| + 1 && Line(s, row)[x] == ' ';
    BoardCharAt(s, row, x);
  }

  /** Every line ends with a newline after its N cells. */
  lemma BoardLineEnd(s: seq<int>, row: nat)
    requires row < |s|
    ensures |Lines(s, row)| + 2 * |s| < |BoardText(s)|
    ensures BoardText(s)[|Lines(s, row)| + 2 * |s|] == '\n'
  {
    LineShape(s, row, 0);
    BoardCharAt(s, row, 2 * |s|);
  }

  /** Line row: the cell of column col, then the newline at the end. */
  lemma LineShape(s: seq<int>, row: nat, col: nat)
    requires row < |s| && col < |s|
    ensures |Line(s, row)| == 2 * |s| + 1
    ensures Line(s, row)[2 * col] == (if s[row] == col then 'Q' else '.')
    ensures Line(s, row)[2 * col + 1] == ' '
    ensures Line(s, row)[2 * |s|] == '\n'
  {
    CellsShape(s, row, |s|, col);
    var cells := Cells(s, row, |s|);
    assert Line(s, row) == cells + "\n";
    assert Line(s, row)[2 * col + 1] == cells[2 * col + 1];
    assert Line(s, row)[2 * col] == cells[2 * col];
  }

  // ---------------------------------------------------------------------------
  // ClassicBacktrackingSolver

  class ClassicBacktrackingSolver {
    var statesExplored: Int32

    constructor ()
      ensures statesExplored == 0
    {
      statesExplored := 0;
    }

    /** solveRecursive: records a full placement, otherwise tries every column of
        row `row`, recursing below each valid one and undoing the placement after. */
    method SolveRecursive(n: nat, row: int, current: ArrayList<int>, solutions: ArrayList<seq<int>>)
      requires row == |current.elems| <= n
      modifies this, current, solutions
      ensures current.elems == old(current.elems)
      ensures solutions.elems == old(solutions.elems) + Completions(n, old(current.elems))
      ensures statesExplored == Wrap32(old(statesExplored) + Tries(n, old(current.elems)))
      decreases n - row, 1
    {
      if row == n {
        solutions.Add(current.elems);
        return;
      }
      ghost var p := current.elems;
      ghost var exact: int := old(statesExplored);
      var col := 0;
      while col < n
        invariant 0 <= col <= n
        invariant current.elems == p
        invariant solutions.elems == old(solutions.elems) + CompletionsUpTo(n, p, col)
        invariant exact == old(statesExplored) + TriesUpTo(n, p, col)
        invariant statesExplored == Wrap32(exact)
      {
        ghost var below := if Safe(p, row, col) then Completions(n, p + [col]) else [];
        ghost var tries := if Safe(p, row, col) then Tries(n, p + [col]) else 0;
        TryColumn(n, row, col, current, solutions);
        WrapAdd(exact, 1 + tries);
        assert CompletionsUpTo(n, p, col + 1) == CompletionsUpTo(n, p, col) + below;
        assert TriesUpTo(n, p, col + 1) == TriesUpTo(n, p, col) + 1 + tries;
        ConcatAssociative(old(solutions.elems), CompletionsUpTo(n, p, col), below);
        exact := exact + (1 + tries);
        col := col + 1;
      }
    }

    /** The body of the column loop: count the square, and search below it when
        no earlier queen attacks it, undoing the placement afterwards. */
    method TryColumn(n: nat, row: int, col: int, current: ArrayList<int>, solutions: ArrayList<seq<int>>)
      requires row == |current.elems| < n
      modifies this, current, solutions
      ensures current.elems == old(current.elems)
      ensures solutions.elems == old(solutions.elems)
        + if Safe(old(current.elems), row, col) then Completions(n, old(current.elems) + [col]) else []
      ensures statesExplored == Wrap32(old(statesExplored) + 1
        + if Safe(old(current.elems), row, col) then Tries(n, old(current.elems) + [col]) else 0)
      decreases n - row, 0
    {
      statesExplored := Wrap32(statesExplored + 1);
      var ok := IsValidPosition(current.elems, row, col);
      if ok {
        ghost var p := current.elems;
        current.Add(col);
        SolveRecursive(n, row + 1, current, solutions);
        current.Remove(current.Size() - 1);
        assert current.elems == p;
        WrapAdd(old(statesExplored) + 1, Tries(n, p + [col]));
      }
    }

    /** findAllSolutions: fresh lists, then the search from row 0. */
    method FindAllSolutions(n: nat) returns (result: seq<seq<int>>)
      modifies this
      ensures result == AllSolutions(n)
      ensures statesExplored == Wrap32(old(statesExplored) + n * InnerNodes(n, []))
    {
      var solutions := new ArrayList<seq<int>>();
      var currentSolution := new ArrayList<int>();
      SolveRecursive(n, 0, currentSolution, solutions);
      TriesCountsInnerNodes(n, []);
      result := solutions.elems;
    }
  }

  // ---------------------------------------------------------------------------
  // OptimizedBacktrackingSolver

  /** The "row - col + N - 1" diagonals the queens of placed occupy. */
  ghost function Diagonals1(n: nat, placed: seq<int>): set<int>
  {
    set i | 0 <= i < |placed| :: i - placed[i] + n - 1
  }

  /** The "row + col" diagonals the queens of placed occupy. */
  ghost function Diagonals2(placed: seq<int>): set<int>
  {
    set i | 0 <= i < |placed| :: i + placed[i]
  }

  /** The contents of columnUsed for placement placed: true at the columns taken. */
  ghost function ColumnMarks(n: nat, placed: seq<int>): (m: seq<bool>)
    ensures |m| == n && forall c :: 0 <= c < n ==> (m[c] <==> c in placed)
  {
    seq(n, c => c in placed)
  }

  /** The contents of diagonal1Used: true at the "row - col + N - 1" diagonals taken. */
  ghost function Diagonal1Marks(n: nat, placed: seq<int>): (m: seq<bool>)
    requires n >= 1
    ensures |m| == 2 * n - 1 && forall d :: 0 <= d < 2 * n - 1 ==> (m[d] <==> d in Diagonals1(n, placed))
  {
    seq(2 * n - 1, d => d in Diagonals1(n, placed))
  }

  /** The contents of diagonal2Used: true at the "row + col" diagonals taken. */
  ghost function Diagonal2Marks(n: nat, placed: seq<int>): (m: seq<bool>)
    requires n >= 1
    ensures |m| == 2 * n - 1 && forall d :: 0 <= d < 2 * n - 1 ==> (m[d] <==> d in Diagonals2(placed))
  {
    seq(2 * n - 1, d => d in Diagonals2(placed))
  }

  /** The three occupancy arrays hold exactly the marks of the queens of placed. */
  ghost predicate Occupancy(n: nat, placed: seq<int>, colUsed: seq<bool>, d1: seq<bool>, d2: seq<bool>)
  {
    && n >= 1
    && colUsed == ColumnMarks(n, placed)
    && d1 == Diagonal1Marks(n, placed)
    && d2 == Diagonal2Marks(n, placed)
  }

  /** The column and the two diagonals of a square no queen of p attacks are free. */
  lemma SafeLinesFree(n: nat, p: seq<int>, col: int)
    requires Safe(p, |p|, col)
    ensures col !in p
    ensures |p| - col + n - 1 !in Diagonals1(n, p)
    ensures |p| + col !in Diagonals2(p)
  {
    var row := |p|;
    assert |p| - col + n - 1 !in Diagonals1(n, p) by {
      forall i | 0 <= i < |p| ensures i - p[i] + n - 1 != row - col + n - 1 {
        assert Abs(i - row) != Abs(p[i] - col);
      }
    }
    assert row + col !in Diagonals2(p) by {
      forall i | 0 <= i < |p| ensures i + p[i] != row + col {
        assert Abs(i - row) != Abs(p[i] - col);
      }
    }
  }

  /** A new queen adds its own two diagonals and nothing else. */
  lemma DiagonalsSnoc(n: nat, p: seq<int>, col: int)
    ensures Diagonals1(n, p + [col]) == Diagonals1(n, p) + {|p| - col + n - 1}
    ensures Diagonals2(p + [col]) == Diagonals2(p) + {|p| + col}
  {
    var q := p + [col];
    forall d | d in Diagonals1(n, q) ensures d in Diagonals1(n, p) + {|p| - col + n - 1} {
      var i :| 0 <= i < |q| && d == i - q[i] + n - 1;
      if i < |p| { assert q[i] == p[i]; }
    }
    forall d | d in Diagonals1(n, p) ensures d in Diagonals1(n, q) {
      var i :| 0 <= i < |p| && d == i - p[i] + n - 1;
      assert q[i] == p[i];
    }
    forall d | d in Diagonals2(q) ensures d in Diagonals2(p) + {|p| + col} {
      var i :| 0 <= i < |q| && d == i + q[i];
      if i < |p| { assert q[i] == p[i]; }
    }
    forall d | d in Diagonals2(p) ensures d in Diagonals2(q) {
      var i :| 0 <= i < |p| && d == i + p[i];
      assert q[i] == p[i];
    }
    assert q[|p|] == col;
  }

  /** The array test of the optimized solver is the conflict check of isValidPosition. */
  lemma OccupancyDecidesSafe(n: nat, p: seq<int>, colUsed: seq<bool>, d1: seq<bool>, d2: seq<bool>, col: int)
    requires Occupancy(n, p, colUsed, d1, d2) && |p| < n && 0 <= col < n
    ensures 0 <= |p| - col + n - 1 < 2 * n - 1 && 0 <= |p| + col < 2 * n - 1
    ensures (!colUsed[col] && !d1[|p| - col + n - 1] && !d2[|p| + col]) <==> Safe(p, |p|, col)
  {
    var row := |p|;
    if !Safe(p, row, col) {
      var i :| 0 <= i < row && (p[i] == col || Abs(i - row) == Abs(p[i] - col));
      if p[i] == col {
        assert col in p;
      } else if p[i] - col == i - row {
        assert i - p[i] + n - 1 in Diagonals1(n, p);
      } else {
        assert i + p[i] in Diagonals2(p);
      }
    } else {
      SafeLinesFree(n, p, col);
    }
  }

  /** Marking the new queen's column and diagonals gives the occupancy of the
      extended placement. */
  lemma OccupancyMark(n: nat, p: seq<int>, colUsed: seq<bool>, d1: seq<bool>, d2: seq<bool>, col: int)
    requires Occupancy(n, p, colUsed, d1, d2) && |p| < n && 0 <= col < n
    ensures Occupancy(n, p + [col], colUsed[col := true], d1[|p| - col + n - 1 := true], d2[|p| + col := true])
  {
    DiagonalsSnoc(n, p, col);
    assert ColumnMarks(n, p + [col]) == colUsed[col := true] by {
      forall c | 0 <= c < n ensures ColumnMarks(n, p + [col])[c] == colUsed[col := true][c] {
        assert c in p + [col] <==> c in p || c == col;
      }
    }
    assert Diagonal1Marks(n, p + [col]) == d1[|p| - col + n - 1 := true];
    assert Diagonal2Marks(n, p + [col]) == d2[|p| + col := true];
  }

  /** Clearing the marks of the last queen, which no earlier queen attacks, gives
      back the occupancy of the shorter placement. */
  lemma OccupancyUnmark(n: nat, p: seq<int>, colUsed: seq<bool>, d1: seq<bool>, d2: seq<bool>, col: int)
    requires Occupancy(n, p + [col], colUsed, d1, d2) && |p| < n && 0 <= col < n && Safe(p, |p|, col)
    ensures Occupancy(n, p, colUsed[col := false], d1[|p| - col + n - 1 := false], d2[|p| + col := false])
  {
    DiagonalsSnoc(n, p, col);
    SafeLinesFree(n, p, col);
    assert ColumnMarks(n, p) == colUsed[col := false] by {
      forall c | 0 <= c < n ensures ColumnMarks(n, p)[c] == colUsed[col := false][c] {
        assert c in p + [col] <==> c in p || c == col;
      }
    }
    assert Diagonal1Marks(n, p) == d1[|p| - col + n - 1 := false];
    assert Diagonal2Marks(n, p) == d2[|p| + col := false];
  }

  class OptimizedBacktrackingSolver {
    var statesExplored: Int32
    var columnUsed: array?<bool>
    var diagonal1Used: array?<bool>  // indexed by row - col + N - 1
    var diagonal2Used: array?<bool>  // indexed by row + col

    /** A new solver: the arrays stay null until initializeSolver allocates them. */
    constructor ()
      ensures statesExplored == 0
      ensures columnUsed == null && diagonal1Used == null && diagonal2Used == null
    {
      statesExplored := 0;
      columnUsed, diagonal1Used, diagonal2Used := null, null, null;
    }

    /** The arrays exist, are three distinct objects, and mark exactly placed. */
    ghost predicate Marks(n: nat, placed: seq<int>)
      reads this, columnUsed, diagonal1Used, diagonal2Used
    {
      && columnUsed != null && diagonal1Used != null && diagonal2Used != null
      && columnUsed != diagonal1Used && columnUsed != diagonal2Used && diagonal1Used != diagonal2Used
      && Occupancy(n, placed, columnUsed[..], diagonal1Used[..], diagonal2Used[..])
    }

    /** Reading the three marks of a square answers the conflict check. */
    lemma MarksDecideSafe(n: nat, p: seq<int>, col: int)
      requires Marks(n, p) && |p| < n && 0 <= col < n
      ensures 0 <= |p| - col + n - 1 < diagonal1Used.Length && 0 <= |p| + col < diagonal2Used.Length
      ensures (!columnUsed[col] && !diagonal1Used[|p| - col + n - 1] && !diagonal2Used[|p| + col]) <==> Safe(p, |p|, col)
    {
      OccupancyDecidesSafe(n, p, columnUsed[..], diagonal1Used[..], diagonal2Used[..], col);
    }

    /** initializeSolver: allocates the column array (size N) and the two diagonal
        arrays (size 2N - 1, which is negative for N = 0), all false. */
    method InitializeSolver(n: nat) returns (status: Status)
      modifies this
      ensures statesExplored == old(statesExplored)
      ensures n == 0 ==> status == Threw(NegativeArraySizeException)
      ensures n >= 1 ==> status == Completed && Marks(n, [])
      ensures n >= 1 ==> fresh(columnUsed) && fresh(diagonal1Used) && fresh(diagonal2Used)
    {
      columnUsed := new bool[n](_ => false);
      if 2 * n - 1 < 0 {
        return Threw(NegativeArraySizeException);
      }
      diagonal1Used := new bool[2 * n - 1](_ => false);
      diagonal2Used := new bool[2 * n - 1](_ => false);
      status := Completed;
    }

    /** The "mark as used" block of solveRecursive: place a queen the marks show
        unattacked on the next row and mark its column and diagonals. */
    method Place(n: nat, row: int, col: int, current: ArrayList<int>)
      requires row == |current.elems| < n && 0 <= col < n
      requires Marks(n, current.elems) && Safe(current.elems, row, col)
      modifies current, columnUsed, diagonal1Used, diagonal2Used
      ensures current.elems == old(current.elems) + [col]
      ensures Marks(n, current.elems)
    {
      ghost var p, cu, d1, d2 := current.elems, columnUsed[..], diagonal1Used[..], diagonal2Used[..];
      OccupancyMark(n, p, cu, d1, d2, col);
      current.Add(col);
      columnUsed[col] := true;
      diagonal1Used[row - col + n - 1] := true;
      diagonal2Used[row + col] := true;
      assert columnUsed[..] == cu[col := true];
      assert diagonal1Used[..] == d1[row - col + n - 1 := true];
      assert diagonal2Used[..] == d2[row + col := true];
    }

    /** The "backtrack" block of solveRecursive: take the last queen off and clear
        its column and diagonals. */
    method Unplace(n: nat, row: int, col: int, current: ArrayList<int>)
      requires 0 <= row < n && |current.elems| == row + 1 && current.elems[row] == col && 0 <= col < n
      requires Marks(n, current.elems) && Safe(current.elems[..row], row, col)
      modifies current, columnUsed, diagonal1Used, diagonal2Used
      ensures current.elems == old(current.elems)[..row]
      ensures Marks(n, current.elems)
    {
      ghost var p, cu, d1, d2 := current.elems[..row], columnUsed[..], diagonal1Used[..], diagonal2Used[..];
      assert current.elems == p + [col];
      OccupancyUnmark(n, p, cu, d1, d2, col);
      current.Remove(current.Size() - 1);
      columnUsed[col] := false;
      diagonal1Used[row - col + n - 1] := false;
      diagonal2Used[row + col] := false;
      assert columnUsed[..] == cu[col := false];
      assert diagonal1Used[..] == d1[row - col + n - 1 := false];
      assert diagonal2Used[..] == d2[row + col := false];
    }

    /** solveRecursive: as the classic search, but the conflict test reads the three
        occupancy arrays, which are set before and cleared after each recursive
        call, so they mark the current placement again on return. Reading an array
        that was never allocated raises NullPointerException on the first column
        tried. */
    method SolveRecursive(n: nat, row: int, current: ArrayList<int>, solutions: ArrayList<seq<int>>)
      returns (status: Status)
      requires row == |current.elems| <= n
      requires columnUsed == null || Marks(n, current.elems)
      modifies this`statesExplored, current, solutions, columnUsed, diagonal1Used, diagonal2Used
      ensures columnUsed != null ==>
        && status == Completed
        && current.elems == old(current.elems)
        && solutions.elems == old(solutions.elems) + Completions(n, old(current.elems))
        && statesExplored == Wrap32(old(statesExplored) + Tries(n, old(current.elems)))
        && Marks(n, old(current.elems))
      ensures columnUsed == null && row == n ==>
        && status == Completed && current.elems == old(current.elems)
        && solutions.elems == old(solutions.elems) + [current.elems]
      ensures columnUsed == null && row < n ==>
        && status == Threw(NullPointerException)
        && statesExplored == Wrap32(old(statesExplored) + 1)
        && solutions.elems == old(solutions.elems) && current.elems == old(current.elems)
      decreases n - row, 2
    {
      if row == n {
        solutions.Add(current.elems);
        return Completed;
      }
      ghost var p := current.elems;
      ghost var exact: int := old(statesExplored);
      var col := 0;
      while col < n
        invariant 0 <= col <= n
        invariant columnUsed == null ==> col == 0 && statesExplored == old(statesExplored)
        invariant current.elems == p
        invariant solutions.elems == old(solutions.elems) + CompletionsUpTo(n, p, col)
        invariant exact == old(statesExplored) + TriesUpTo(n, p, col)
        invariant statesExplored == Wrap32(exact)
        invariant columnUsed != null ==> Marks(n, p)
      {
        ghost var below := if Safe(p, row, col) then Completions(n, p + [col]) else [];
        ghost var tries := if Safe(p, row, col) then Tries(n, p + [col]) else 0;
        status := TryColumn(n, row, col, current, solutions);
        if status.Threw? {
          WrapAdd(exact, 1);
          return;
        }
        WrapAdd(exact, 1 + tries);
        assert CompletionsUpTo(n, p, col + 1) == CompletionsUpTo(n, p, col) + below;
        assert TriesUpTo(n, p, col + 1) == TriesUpTo(n, p, col) + 1 + tries;
        ConcatAssociative(old(solutions.elems), CompletionsUpTo(n, p, col), below);
        exact := exact + (1 + tries);
        col := col + 1;
      }
      return Completed;
    }

    /** The body of the column loop: count the square, then read the occupancy
        arrays; a square they show free is searched below, any other is skipped.
        Reading an array that was never allocated raises NullPointerException. */
    method TryColumn(n: nat, row: int, col: int, current: ArrayList<int>, solutions: ArrayList<seq<int>>)
      returns (status: Status)
      requires row == |current.elems| < n && 0 <= col < n
      requires columnUsed == null || Marks(n, current.elems)
      modifies this`statesExplored, current, solutions, columnUsed, diagonal1Used, diagonal2Used
      ensures current.elems == old(current.elems)
      ensures columnUsed == null ==>
        && status == Threw(NullPointerException)
        && statesExplored == Wrap32(old(statesExplored) + 1) && solutions.elems == old(solutions.elems)
      ensures columnUsed != null ==>
        && status == Completed
        && Marks(n, current.elems)
        && solutions.elems == old(solutions.elems)
          + (if Safe(old(current.elems), row, col) then Completions(n, old(current.elems) + [col]) else [])
        && statesExplored == Wrap32(old(statesExplored) + 1
          + if Safe(old(current.elems), row, col) then Tries(n, old(current.elems) + [col]) else 0)
      decreases n - row, 1
    {
      statesExplored := Wrap32(statesExplored + 1);
      var diag1 := row - col + n - 1;
      var diag2 := row + col;
      if columnUsed == null {
        return Threw(NullPointerException);
      }
      MarksDecideSafe(n, current.elems, col);
      if !columnUsed[col] && !diagonal1Used[diag1] && !diagonal2Used[diag2] {
        ghost var p := current.elems;
        Descend(n, row, col, current, solutions);
        WrapAdd(old(statesExplored) + 1, Tries(n, p + [col]));
      }
      return Completed;
    }

    /** The body of the column loop for a square the marks show free: mark it, search
        the rows below, and backtrack. */
    method Descend(n: nat, row: int, col: int, current: ArrayList<int>, solutions: ArrayList<seq<int>>)
      requires row == |current.elems| < n && 0 <= col < n
      requires Marks(n, current.elems) && Safe(current.elems, row, col)
      modifies this`statesExplored, current, solutions, columnUsed, diagonal1Used, diagonal2Used
      ensures current.elems == old(current.elems)
      ensures Marks(n, current.elems)
      ensures solutions.elems == old(solutions.elems) + Completions(n, old(current.elems) + [col])
      ensures statesExplored == Wrap32(old(statesExplored) + Tries(n, old(current.elems) + [col]))
      decreases n - row, 0
    {
      ghost var p := current.elems;
      Place(n, row, col, current);
      var status := SolveRecursive(n, row + 1, current, solutions);
      assert current.elems[..row] == p;
      Unplace(n, row, col, current);
    }

    /** findAllSolutions: fresh lists, initializeSolver, then the search from row 0. */
    method FindAllSolutions(n: nat) returns (r: Outcome<seq<seq<int>>>)
      modifies this
      ensures n == 0 ==> r == Thrown(NegativeArraySizeException)
      ensures n >= 1 ==> r == Ok(AllSolutions(n))
      ensures n >= 1 ==> statesExplored == Wrap32(old(statesExplored) + n * InnerNodes(n, []))
    {
      var solutions := new ArrayList<seq<int>>();
      var currentSolution := new ArrayList<int>();
      var status := InitializeSolver(n);
      if status.Threw? {
        return Thrown(status.exception);
      }
      assert columnUsed != null && solutions.elems == [] && currentSolution.elems == [];
      status := SolveRecursive(n, 0, currentSolution, solutions);
      assert solutions.elems == AllSolutions(n);
      TriesCountsInnerNodes(n, []);
      r := Ok(solutions.elems);
    }
  }

  // ---------------------------------------------------------------------------
  // DistributedDPSolver

  class DistributedDPSolver {
    var statesExplored: Int32

    constructor ()
      ensures statesExplored == 0
    {
      statesExplored := 0;
    }

    /** solveRecursive as written: delegates to a new OptimizedBacktrackingSolver
        whose arrays were never allocated, then overwrites statesExplored with N^3.
        Below a full placement the delegate dereferences null. */
    method SolveRecursiveAsWritten(n: nat, row: int, current: ArrayList<int>, solutions: ArrayList<seq<int>>)
      returns (status: Status)
      requires row == |current.elems| <= n
      modifies this, current, solutions
      ensures row < n ==> status == Threw(NullPointerException) && statesExplored == old(statesExplored)
      ensures row < n ==> solutions.elems == old(solutions.elems)
      ensures row == n ==> status == Completed && statesExplored == Int32Mul(Int32Mul(n, n), n)
      ensures row == n ==> solutions.elems == old(solutions.elems) + [old(current.elems)]
    {
      var delegate := new OptimizedBacktrackingSolver();
      status := delegate.SolveRecursive(n, row, current, solutions);
      if status.Threw? {
        return;
      }
      statesExplored := Int32Mul(Int32Mul(n, n), n);
    }

    /** findAllSolutions as written: fails with NullPointerException for every N >= 1. */
    method FindAllSolutionsAsWritten(n: nat) returns (r: Outcome<seq<seq<int>>>)
      modifies this
      ensures n >= 1 ==> r == Thrown(NullPointerException) && statesExplored == old(statesExplored)
      ensures n == 0 ==> r == Ok([[]]) && statesExplored == 0
    {
      var solutions := new ArrayList<seq<int>>();
      var currentSolution := new ArrayList<int>();
      var status := SolveRecursiveAsWritten(n, 0, currentSolution, solutions);
      if status.Threw? {
        return Thrown(status.exception);
      }
      assert solutions.elems == [[]];
      r := Ok(solutions.elems);
    }

    /** solveRecursive as intended: the delegate is initialized for the board before
        it searches; statesExplored is then overwritten with N^3. Its only caller,
        findAllSolutions, starts it on the empty board. */
    method SolveRecursive(n: nat, row: int, current: ArrayList<int>, solutions: ArrayList<seq<int>>)
      returns (status: Status)
      requires row == 0 && current.elems == []
      modifies this, current, solutions
      ensures n == 0 ==> status == Threw(NegativeArraySizeException)
      ensures n >= 1 ==> status == Completed && statesExplored == Int32Mul(Int32Mul(n, n), n)
      ensures n >= 1 ==> solutions.elems == old(solutions.elems) + AllSolutions(n) && current.elems == []
    {
      var delegate := new OptimizedBacktrackingSolver();
      status := delegate.InitializeSolver(n);
      if status.Threw? {
        return;
      }
      status := delegate.SolveRecursive(n, row, current, solutions);
      statesExplored := Int32Mul(Int32Mul(n, n), n);
    }

    /** findAllSolutions with the corrected delegate. */
    method FindAllSolutions(n: nat) returns (r: Outcome<seq<seq<int>>>)
      modifies this
      ensures n == 0 ==> r == Thrown(NegativeArraySizeException)
      ensures n >= 1 ==> r == Ok(AllSolutions(n)) && statesExplored == Int32Mul(Int32Mul(n, n), n)
    {
      var solutions := new ArrayList<seq<int>>();
      var currentSolution := new ArrayList<int>();
      var status := SolveRecursive(n, 0, currentSolution, solutions);
      if status.Threw? {
        return Thrown(status.exception);
      }
      assert solutions.elems == AllSolutions(n);
      r := Ok(solutions.elems);
    }
  }

  /** N^3 as a Java int equals the mathematical cube for every N up to 1290, so
      for every board the service accepts. */
  lemma CubeExact(n: nat)
    requires n <= 1290
    ensures Int32Mul(Int32Mul(n, n), n) == n * n * n
  {
    var sq := n * n;
    MulAtMost(n, n, 1290, 1290);
    assert IsInt32(sq) && Int32Mul(n, n) == sq;
    MulAtMost(sq, n, 1664100, 1290);
    assert IsInt32(sq * n);
  }

  lemma MulAtMost(a: nat, b: nat, x: nat, y: nat)
    requires a <= x && b <= y
    ensures a * b <= x * y
  {
    assert a * b <= x * b;
    assert x * b <= x * y;
  }

  // ---------------------------------------------------------------------------
  // solve(N, strategy)

  /** solve: runs the chosen strategy and packs its solutions, its statesExplored
      and the elapsed time (read from a clock by the caller) into a Result. Both
      backtracking strategies report exactly the N-queen solutions, in strictly
      increasing lexicographic order, with statesExplored counted as a Java int
      (so it wraps past 2^31 - 1). The distributed strategy, as written, raises
      NullPointerException on every non-empty board. */
  method Solve(n: nat, strategy: Strategy, elapsedMs: int) returns (r: Outcome<Result>)
    ensures r.Ok? ==> r.value.solutions == AllSolutions(n) && r.value.strategy == strategy
    ensures r.Ok? ==> r.value.executionTimeMs == elapsedMs
    ensures r.Thrown? <==> (strategy == OptimizedBacktracking && n == 0) || (strategy == DistributedDP && n >= 1)
    ensures r.Thrown? ==> r.exception == if strategy == DistributedDP then NullPointerException else NegativeArraySizeException
    ensures r.Ok? && strategy != DistributedDP ==> r.value.statesExplored == Wrap32(n * InnerNodes(n, []))
    ensures r.Ok? && strategy == DistributedDP ==> r.value.statesExplored == 0
    ensures r.Ok? ==> r.value.SolutionCount() == |set q | q in AllSolutions(n)|
  {
    SolutionsCounted(n);
    match strategy
    case ClassicBacktracking =>
      var solver := new ClassicBacktrackingSolver();
      var solutions := solver.FindAllSolutions(n);
      r := Ok(Result(solutions, elapsedMs, solver.statesExplored, strategy));
    case OptimizedBacktracking =>
      var solver := new OptimizedBacktrackingSolver();
      var outcome := solver.FindAllSolutions(n);
      if outcome.Thrown? {
        return Thrown(outcome.exception);
      }
      r := Ok(Result(outcome.value, elapsedMs, solver.statesExplored, strategy));
    case DistributedDP =>
      var solver := new DistributedDPSolver();
      var outcome := solver.FindAllSolutionsAsWritten(n);
      if outcome.Thrown? {
        return Thrown(outcome.exception);
      }
      r := Ok(Result(outcome.value, elapsedMs, solver.statesExplored, strategy));
  }

  /** solve with the corrected distributed strategy: every strategy then reports
      the same list, and only N = 0 under an array strategy throws. */
  method SolveCorrected(n: nat, strategy: Strategy, elapsedMs: int) returns (r: Outcome<Result>)
    ensures r.Ok? ==> r.value.solutions == AllSolutions(n) && r.value.strategy == strategy
    ensures r.Ok? ==> r.value.executionTimeMs == elapsedMs
    ensures r.Thrown? <==> strategy != ClassicBacktracking && n == 0
    ensures r.Ok? && strategy != DistributedDP ==> r.value.statesExplored == Wrap32(n * InnerNodes(n, []))
    ensures r.Ok? && strategy == DistributedDP ==> r.value.statesExplored == Int32Mul(Int32Mul(n, n), n)
    ensures r.Ok? ==> r.value.SolutionCount() == |set q | q in AllSolutions(n)|
  {
    SolutionsCounted(n);
    if strategy != DistributedDP {
      r := Solve(n, strategy, elapsedMs);
      return;
    }
    var solver := new DistributedDPSolver();
    var outcome := solver.FindAllSolutions(n);
    if outcome.Thrown? {
      return Thrown(outcome.exception);
    }
    r := Ok(Result(outcome.value, elapsedMs, solver.statesExplored, strategy));
  }

  /** On the 4x4 board the distributed strategy as written raises NullPointerException,
      while the corrected one reports the two solutions the other strategies report. */
  method DistributedOnFourQueens() returns (asWritten: Outcome<seq<seq<int>>>, corrected: Outcome<seq<seq<int>>>)
    ensures asWritten == Thrown(NullPointerException)
    ensures corrected == Ok([[1, 3, 0, 2], [2, 0, 3, 1]])
  {
    var original := new DistributedDPSolver();
    asWritten := original.FindAllSolutionsAsWritten(4);
    var fixed := new DistributedDPSolver();
    corrected := fixed.FindAllSolutions(4);
    FourQueens.FourQueens();
  }
}
