/** The N-Queens problem as the search code sees it: a placement is a sequence
    of columns, element i being the column of the queen in row i. This module
    holds the attack relation, what a solution is, and the exact list of
    solutions a depth-first search that tries columns in ascending order
    reports. Every solver of the model is proved against `Completions`. */
module Queens {

  /** Math.abs on int (unbounded, so no Integer.MIN_VALUE corner case). */
  function Abs(x: int): nat
  {
    if x < 0 then -x else x
  }

  /** The condition checked by both copies of isValidPosition: no queen in rows
      0..row-1 of board shares col's column or a diagonal with square (row, col). */
  predicate Safe(board: seq<int>, row: int, col: int)
    requires row <= |board|
  {
    forall i :: 0 <= i < row ==> board[i] != col && Abs(i - row) != Abs(board[i] - col)
  }

  /** Every column lies on the board and no two queens attack each other. */
  predicate Consistent(p: seq<int>, n: nat)
  {
    && (forall i :: 0 <= i < |p| ==> 0 <= p[i] < n)
    && (forall i, j :: 0 <= i < j < |p| ==> p[i] != p[j] && Abs(i - j) != Abs(p[i] - p[j]))
  }

  /** A full placement of n non-attacking queens. */
  predicate IsSolution(q: seq<int>, n: nat)
  {
    |q| == n && Consistent(q, n)
  }

  /** Appending one column keeps a placement consistent exactly when the column is
      on the board and Safe for the next row. */
  lemma ConsistentSnoc(p: seq<int>, c: int, n: nat)
    ensures Consistent(p + [c], n) <==> Consistent(p, n) && 0 <= c < n && Safe(p, |p|, c)
  {
    var q := p + [c];
    if Consistent(q, n) {
      forall i | 0 <= i < |p| ensures 0 <= p[i] < n && p[i] != c && Abs(i - |p|) != Abs(p[i] - c) {
        assert q[i] == p[i] && q[|p|] == c;
      }
      forall i, j | 0 <= i < j < |p| ensures p[i] != p[j] && Abs(i - j) != Abs(p[i] - p[j]) {
        assert q[i] == p[i] && q[j] == p[j];
      }
      assert q[|p|] == c && 0 <= q[|p|] < n;
    }
    if Consistent(p, n) && 0 <= c < n && Safe(p, |p|, c) {
      forall i | 0 <= i < |q| ensures 0 <= q[i] < n {
        if i < |p| { assert q[i] == p[i]; }
      }
      forall i, j | 0 <= i < j < |q| ensures q[i] != q[j] && Abs(i - j) != Abs(q[i] - q[j]) {
        if j < |p| {
          assert q[i] == p[i] && q[j] == p[j];
        } else {
          assert q[i] == p[i] && q[j] == c && j == |p|;
          assert p[i] != c && Abs(i - |p|) != Abs(p[i] - c);
        }
      }
      assert Consistent(q, n);
    }
  }

  // ---------------------------------------------------------------------------
  // The depth-first search, as a specification

  /** The solutions a depth-first search started at partial placement p reports,
      in the order it reports them: p itself when it is full, otherwise the
      solutions below each Safe column of row |p|, in ascending column order. */
  function Completions(n: nat, p: seq<int>): seq<seq<int>>
    requires |p| <= n
    decreases n - |p|, n + 1
  {
    if |p| == n then [p] else CompletionsUpTo(n, p, n)
  }

  /** The part of Completions(n, p) reported while columns 0..k-1 of row |p| are tried. */
  function CompletionsUpTo(n: nat, p: seq<int>, k: nat): seq<seq<int>>
    requires |p| < n && k <= n
    decreases n - |p|, k
  {
    if k == 0 then []
    else CompletionsUpTo(n, p, k - 1) + (if Safe(p, |p|, k - 1) then Completions(n, p + [k - 1]) else [])
  }

  /** Everything a search from the empty board reports. */
  function AllSolutions(n: nat): seq<seq<int>>
  {
    Completions(n, [])
  }

  /** The placements of k queens reachable from p by adding Safe columns row by
      row: p itself when it has k rows, otherwise those below each Safe column
      of row |p|, in ascending column order. With k == n this is Completions. */
  function Placements(n: nat, k: nat, p: seq<int>): seq<seq<int>>
    requires |p| <= k <= n
    decreases k - |p|, n + 1
  {
    if |p| == k then [p] else PlacementsUpTo(n, k, p, n)
  }

  /** The part of Placements(n, k, p) below columns 0..c-1 of row |p|. */
  function PlacementsUpTo(n: nat, k: nat, p: seq<int>, c: nat): seq<seq<int>>
    requires |p| < k <= n && c <= n
    decreases k - |p|, c
  {
    if c == 0 then []
    else PlacementsUpTo(n, k, p, c - 1) + (if Safe(p, |p|, c - 1) then Placements(n, k, p + [c - 1]) else [])
  }

  /** Placing queens down to the last row is the full search. */
  lemma {:induction false} PlacementsFull(n: nat, p: seq<int>)
    requires |p| <= n
    ensures Placements(n, n, p) == Completions(n, p)
    decreases n - |p|, n + 1
  {
    if |p| < n {
      PlacementsUpToFull(n, p, n);
    }
  }

  lemma {:induction false} PlacementsUpToFull(n: nat, p: seq<int>, c: nat)
    requires |p| < n && c <= n
    ensures PlacementsUpTo(n, n, p, c) == CompletionsUpTo(n, p, c)
    decreases n - |p|, c
  {
    if c > 0 {
      PlacementsUpToFull(n, p, c - 1);
      if Safe(p, |p|, c - 1) {
        PlacementsFull(n, p + [c - 1]);
      }
    }
  }

  /** The number of calls of the search below p (p included) that are not at full
      depth; each such call tries all n columns of its row. */
  function InnerNodes(n: nat, p: seq<int>): nat
    requires |p| <= n
    decreases n - |p|, n + 1
  {
    if |p| == n then 0 else 1 + InnerNodesUpTo(n, p, n)
  }

  /** Inner nodes below the Safe columns 0..k-1 of row |p|. */
  function InnerNodesUpTo(n: nat, p: seq<int>, k: nat): nat
    requires |p| < n && k <= n
    decreases n - |p|, k
  {
    if k == 0 then 0
    else InnerNodesUpTo(n, p, k - 1) + (if Safe(p, |p|, k - 1) then InnerNodes(n, p + [k - 1]) else 0)
  }

  /** The number of column trials the search below p makes (the statesExplored
      counter of the solvers): one per column of every row it visits. */
  function Tries(n: nat, p: seq<int>): nat
    requires |p| <= n
    decreases n - |p|, n + 1
  {
    if |p| == n then 0 else TriesUpTo(n, p, n)
  }

  /** The trials made while columns 0..k-1 of row |p| are tried. */
  function TriesUpTo(n: nat, p: seq<int>, k: nat): nat
    requires |p| < n && k <= n
    decreases n - |p|, k
  {
    if k == 0 then 0
    else TriesUpTo(n, p, k - 1) + 1 + (if Safe(p, |p|, k - 1) then Tries(n, p + [k - 1]) else 0)
  }

  /** Every inner node of the search tries all n columns of its row, and nothing
      else is counted. */
  lemma {:induction false} TriesCountsInnerNodes(n: nat, p: seq<int>)
    requires |p| <= n
    ensures Tries(n, p) == n * InnerNodes(n, p)
    decreases n - |p|, n + 1
  {
    if |p| < n {
      TriesUpToCountsInnerNodes(n, p, n);
      MulDistributes(n, 1, InnerNodesUpTo(n, p, n));
    }
  }

  lemma {:induction false} TriesUpToCountsInnerNodes(n: nat, p: seq<int>, k: nat)
    requires |p| < n && k <= n
    ensures TriesUpTo(n, p, k) == k + n * InnerNodesUpTo(n, p, k)
    decreases n - |p|, k
  {
    if k > 0 {
      TriesUpToCountsInnerNodes(n, p, k - 1);
      var inner := if Safe(p, |p|, k - 1) then InnerNodes(n, p + [k - 1]) else 0;
      if Safe(p, |p|, k - 1) {
        TriesCountsInnerNodes(n, p + [k - 1]);
      }
      MulDistributes(n, InnerNodesUpTo(n, p, k - 1), inner);
    }
  }

  lemma MulDistributes(n: nat, a: nat, b: nat)
    ensures n * (a + b) == n * a + n * b
  {
  }

  // ---------------------------------------------------------------------------
  // Shape, soundness and completeness of the search

  /** Every reported placement is full and extends p. */
  lemma {:induction false} CompletionsExtend(n: nat, p: seq<int>)
    requires |p| <= n
    ensures forall q :: q in Completions(n, p) ==> |q| == n && q[..|p|] == p
    decreases n - |p|, n + 1
  {
    if |p| < n {
      CompletionsUpToExtend(n, p, n);
    }
  }

  /** Below columns 0..k-1, every reported placement is full, extends p, and puts a
      Safe column smaller than k in row |p|. */
  lemma {:induction false} CompletionsUpToExtend(n: nat, p: seq<int>, k: nat)
    requires |p| < n && k <= n
    ensures forall q :: q in CompletionsUpTo(n, p, k) ==>
      |q| == n && q[..|p|] == p && 0 <= q[|p|] < k && Safe(p, |p|, q[|p|])
    decreases n - |p|, k
  {
    if k > 0 {
      CompletionsUpToExtend(n, p, k - 1);
      if Safe(p, |p|, k - 1) {
        var p' := p + [k - 1];
        CompletionsExtend(n, p');
        forall q | q in Completions(n, p')
          ensures |q| == n && q[..|p|] == p && q[|p|] == k - 1
        {
          assert q[..|p'|] == p';
          assert q[..|p|] == p'[..|p|] == p;
          assert q[|p|] == p'[|p|];
        }
      }
    }
  }

  /** Soundness: from a consistent start, the search reports only solutions. */
  lemma {:induction false} CompletionsSound(n: nat, p: seq<int>)
    requires |p| <= n && Consistent(p, n)
    ensures forall q :: q in Completions(n, p) ==> IsSolution(q, n)
    decreases n - |p|, n + 1
  {
    if |p| < n {
      CompletionsUpToSound(n, p, n);
    }
  }

  lemma {:induction false} CompletionsUpToSound(n: nat, p: seq<int>, k: nat)
    requires |p| < n && k <= n && Consistent(p, n)
    ensures forall q :: q in CompletionsUpTo(n, p, k) ==> IsSolution(q, n)
    decreases n - |p|, k
  {
    if k > 0 {
      CompletionsUpToSound(n, p, k - 1);
      if Safe(p, |p|, k - 1) {
        ConsistentSnoc(p, k - 1, n);
        CompletionsSound(n, p + [k - 1]);
      }
    }
  }

  /** Completeness: every solution extending p is reported by the search from p. */
  lemma {:induction false} CompletionsComplete(n: nat, p: seq<int>, q: seq<int>)
    requires |p| <= n && IsSolution(q, n) && q[..|p|] == p
    ensures q in Completions(n, p)
    decreases n - |p|
  {
    if |p| == n {
      assert q == q[..|p|];
    } else {
      var c := q[|p|];
      var p' := p + [c];
      assert q[..|p'|] == p' by {
        assert q[..|p| + 1] == q[..|p|] + [q[|p|]];
      }
      assert Safe(p, |p|, c) && 0 <= c < n by {
        PrefixConsistent(q, |p'|, n);
        ConsistentSnoc(p, c, n);
      }
      CompletionsComplete(n, p', q);
      CompletionsUpToContains(n, p, n, c);
    }
  }

  /** A prefix of a consistent placement is consistent. */
  lemma PrefixConsistent(q: seq<int>, k: nat, n: nat)
    requires k <= |q| && Consistent(q, n)
    ensures Consistent(q[..k], n)
  {
    var p := q[..k];
    forall i, j | 0 <= i < j < |p| ensures p[i] != p[j] && Abs(i - j) != Abs(p[i] - p[j]) {
      assert p[i] == q[i] && p[j] == q[j];
    }
  }

  /** Everything below a Safe column c < k of row |p| is part of CompletionsUpTo(n, p, k). */
  lemma {:induction false} CompletionsUpToContains(n: nat, p: seq<int>, k: nat, c: int)
    requires |p| < n && k <= n && 0 <= c < k && Safe(p, |p|, c)
    ensures forall q :: q in Completions(n, p + [c]) ==> q in CompletionsUpTo(n, p, k)
    decreases k
  {
    if c < k - 1 {
      CompletionsUpToContains(n, p, k - 1, c);
    }
  }

  /** The search from the empty board reports exactly the solutions. */
  lemma AllSolutionsExact(n: nat, q: seq<int>)
    ensures q in AllSolutions(n) <==> IsSolution(q, n)
  {
    if q in AllSolutions(n) {
      CompletionsSound(n, []);
    }
    if IsSolution(q, n) {
      CompletionsComplete(n, [], q);
    }
  }

  // ---------------------------------------------------------------------------
  // Order of the reported solutions

  /** a comes strictly before b in lexicographic order (at a position both have). */
  ghost predicate LexLess(a: seq<int>, b: seq<int>)
  {
    exists k :: 0 <= k < |a| && k < |b| && a[..k] == b[..k] && a[k] < b[k]
  }

  /** Each element comes strictly before every later one; hence no duplicates. */
  ghost predicate StrictlySorted(s: seq<seq<int>>)
  {
    forall i, j :: 0 <= i < j < |s| ==> LexLess(s[i], s[j])
  }

  lemma LexLessIrreflexive(a: seq<int>)
    ensures !LexLess(a, a)
  {
  }

  /** Sequence concatenation regroups freely. */
  lemma ConcatAssociative<T>(a: seq<T>, b: seq<T>, c: seq<T>)
    ensures (a + b) + c == a + (b + c)
  {
  }

  lemma SortedConcat(a: seq<seq<int>>, b: seq<seq<int>>)
    requires StrictlySorted(a) && StrictlySorted(b)
    requires forall x, y :: x in a && y in b ==> LexLess(x, y)
    ensures StrictlySorted(a + b)
  {
    var s := a + b;
    forall i, j | 0 <= i < j < |s| ensures LexLess(s[i], s[j]) {
      if j < |a| {
        assert s[i] == a[i] && s[j] == a[j];
      } else if i >= |a| {
        assert s[i] == b[i - |a|] && s[j] == b[j - |a|];
      } else {
        assert s[i] == a[i] && s[j] == b[j - |a|];
      }
    }
  }

  /** The search reports its solutions in strictly increasing lexicographic order. */
  lemma {:induction false} CompletionsSorted(n: nat, p: seq<int>)
    requires |p| <= n
    ensures StrictlySorted(Completions(n, p))
    decreases n - |p|, n + 1
  {
    if |p| < n {
      CompletionsUpToSorted(n, p, n);
    }
  }

  lemma {:induction false} CompletionsUpToSorted(n: nat, p: seq<int>, k: nat)
    requires |p| < n && k <= n
    ensures StrictlySorted(CompletionsUpTo(n, p, k))
    decreases n - |p|, k
  {
    if k > 0 {
      CompletionsUpToSorted(n, p, k - 1);
      if Safe(p, |p|, k - 1) {
        var p' := p + [k - 1];
        var a, b := CompletionsUpTo(n, p, k - 1), Completions(n, p');
        CompletionsSorted(n, p');
        CompletionsUpToExtend(n, p, k - 1);
        CompletionsExtend(n, p');
        forall x, y | x in a && y in b ensures LexLess(x, y) {
          assert y[..|p'|] == p';
          assert y[..|p|] == p'[..|p|] == p;
          assert y[|p|] == p'[|p|] == k - 1;
          assert x[..|p|] == y[..|p|] && x[|p|] < y[|p|];
        }
        SortedConcat(a, b);
      }
    }
  }

  /** No placement is reported twice. */
  lemma AllSolutionsDistinct(n: nat)
    ensures forall i, j :: 0 <= i < j < |AllSolutions(n)| ==> AllSolutions(n)[i] != AllSolutions(n)[j]
  {
    CompletionsSorted(n, []);
    forall i, j | 0 <= i < j < |AllSolutions(n)| ensures AllSolutions(n)[i] != AllSolutions(n)[j] {
      LexLessIrreflexive(AllSolutions(n)[i]);
    }
  }

  /** A sequence without repeated entries has as many distinct elements as entries. */
  lemma {:induction false} DistinctCardinality<T>(s: seq<T>)
    requires forall i, j :: 0 <= i < j < |s| ==> s[i] != s[j]
    ensures |set x | x in s| == |s|
  {
    if |s| > 0 {
      var t := s[..|s| - 1];
      DistinctCardinality(t);
      assert (set x | x in s) == (set x | x in t) + {s[|s| - 1]};
    }
  }

  /** The length of the reported list is the number of distinct N-queens solutions. */
  lemma SolutionsCounted(n: nat)
    ensures |set q | q in AllSolutions(n)| == |AllSolutions(n)|
    ensures forall q :: q in AllSolutions(n) <==> IsSolution(q, n)
  {
    AllSolutionsDistinct(n);
    DistinctCardinality(AllSolutions(n));
    forall q ensures q in AllSolutions(n) <==> IsSolution(q, n) {
      AllSolutionsExact(n, q);
    }
  }
}
