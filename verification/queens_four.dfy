/** The 4x4 board worked out: the search reports [1,3,0,2] and then [2,0,3,1].
    One lemma per inner node of the search tree, each naming the node's Safe
    columns and, for every other column, the queen that attacks it. */
module FourQueens {
  import opened Queens

  /** The search below one 4x4 placement, unfolded over the four columns of its next row. */
  function Branch(p: seq<int>, c: int): seq<seq<int>>
    requires |p| < 4
  {
    if Safe(p, |p|, c) then Completions(4, p + [c]) else []
  }

  lemma Unfold4(p: seq<int>)
    requires |p| < 4
    ensures Completions(4, p) == Branch(p, 0) + Branch(p, 1) + Branch(p, 2) + Branch(p, 3)
  {
    assert CompletionsUpTo(4, p, 1) == Branch(p, 0);
    assert CompletionsUpTo(4, p, 2) == CompletionsUpTo(4, p, 1) + Branch(p, 1);
    assert CompletionsUpTo(4, p, 3) == CompletionsUpTo(4, p, 2) + Branch(p, 2);
    assert CompletionsUpTo(4, p, 4) == CompletionsUpTo(4, p, 3) + Branch(p, 3);
  }

  /** The queen in row i attacks square (|p|, col). */
  lemma Attacked(p: seq<int>, col: int, i: nat)
    requires i < |p| && (p[i] == col || Abs(i - |p|) == Abs(p[i] - col))
    ensures !Safe(p, |p|, col)
  {
  }

  /** With c the one safe column, the search below p is the search below p + [c]. */
  lemma OnlySafeColumn(p: seq<int>, c: int)
    requires |p| < 4 && 0 <= c < 4 && Safe(p, |p|, c)
    requires forall d :: 0 <= d < 4 && d != c ==> !Safe(p, |p|, d)
    ensures Completions(4, p) == Completions(4, p + [c])
  {
    Unfold4(p);
    assert !Safe(p, |p|, 0) || c == 0;
    assert !Safe(p, |p|, 1) || c == 1;
    assert !Safe(p, |p|, 2) || c == 2;
    assert !Safe(p, |p|, 3) || c == 3;
  }

  /** With no safe column, the search below p finds nothing. */
  lemma NoSafeColumn(p: seq<int>)
    requires |p| < 4
    requires forall d :: 0 <= d < 4 ==> !Safe(p, |p|, d)
    ensures Completions(4, p) == []
  {
    Unfold4(p);
    assert !Safe(p, |p|, 0) && !Safe(p, |p|, 1) && !Safe(p, |p|, 2) && !Safe(p, |p|, 3);
  }

  lemma Below02(p: seq<int>)
    requires p == [0, 2]
    ensures Completions(4, p) == []
  {
    Attacked(p, 0, 0); Attacked(p, 1, 1); Attacked(p, 2, 0); Attacked(p, 3, 1);
    NoSafeColumn(p);
  }

  lemma Below031(p: seq<int>)
    requires p == [0, 3, 1]
    ensures Completions(4, p) == []
  {
    Attacked(p, 0, 0); Attacked(p, 1, 1); Attacked(p, 2, 2); Attacked(p, 3, 0);
    NoSafeColumn(p);
  }

  lemma Below03(p: seq<int>)
    requires p == [0, 3]
    ensures Completions(4, p) == []
  {
    Attacked(p, 0, 0); Attacked(p, 2, 0); Attacked(p, 3, 1);
    assert Safe(p, 2, 1);
    OnlySafeColumn(p, 1);
    Below031(p + [1]);
  }

  lemma Below0(p: seq<int>)
    requires p == [0]
    ensures Completions(4, p) == []
  {
    Attacked(p, 0, 0); Attacked(p, 1, 0);
    assert Safe(p, 1, 2);
    assert Safe(p, 1, 3);
    Unfold4(p);
    Below02(p + [2]);
    Below03(p + [3]);
  }

  lemma Below130(p: seq<int>)
    requires p == [1, 3, 0]
    ensures Completions(4, p) == [[1, 3, 0, 2]]
  {
    Attacked(p, 0, 2); Attacked(p, 1, 0); Attacked(p, 3, 1);
    assert Safe(p, 3, 2);
    OnlySafeColumn(p, 2);
    assert Completions(4, p + [2]) == [p + [2]];
    assert p + [2] == [1, 3, 0, 2];
  }

  lemma Below13(p: seq<int>)
    requires p == [1, 3]
    ensures Completions(4, p) == [[1, 3, 0, 2]]
  {
    Attacked(p, 1, 0); Attacked(p, 2, 1); Attacked(p, 3, 0);
    assert Safe(p, 2, 0);
    OnlySafeColumn(p, 0);
    Below130(p + [0]);
  }

  lemma Below1(p: seq<int>)
    requires p == [1]
    ensures Completions(4, p) == [[1, 3, 0, 2]]
  {
    Attacked(p, 0, 0); Attacked(p, 1, 0); Attacked(p, 2, 0);
    assert Safe(p, 1, 3);
    OnlySafeColumn(p, 3);
    Below13(p + [3]);
  }

  lemma Below203(p: seq<int>)
    requires p == [2, 0, 3]
    ensures Completions(4, p) == [[2, 0, 3, 1]]
  {
    Attacked(p, 0, 1); Attacked(p, 2, 0); Attacked(p, 3, 2);
    assert Safe(p, 3, 1);
    OnlySafeColumn(p, 1);
    assert Completions(4, p + [1]) == [p + [1]];
    assert p + [1] == [2, 0, 3, 1];
  }

  lemma Below20(p: seq<int>)
    requires p == [2, 0]
    ensures Completions(4, p) == [[2, 0, 3, 1]]
  {
    Attacked(p, 0, 0); Attacked(p, 1, 1); Attacked(p, 2, 0);
    assert Safe(p, 2, 3);
    OnlySafeColumn(p, 3);
    Below203(p + [3]);
  }

  lemma Below2(p: seq<int>)
    requires p == [2]
    ensures Completions(4, p) == [[2, 0, 3, 1]]
  {
    Attacked(p, 1, 0); Attacked(p, 2, 0); Attacked(p, 3, 0);
    assert Safe(p, 1, 0);
    OnlySafeColumn(p, 0);
    Below20(p + [0]);
  }

  lemma Below302(p: seq<int>)
    requires p == [3, 0, 2]
    ensures Completions(4, p) == []
  {
    Attacked(p, 0, 0); Attacked(p, 1, 2); Attacked(p, 2, 1); Attacked(p, 3, 0);
    NoSafeColumn(p);
  }

  lemma Below30(p: seq<int>)
    requires p == [3, 0]
    ensures Completions(4, p) == []
  {
    Attacked(p, 0, 1); Attacked(p, 1, 0); Attacked(p, 3, 0);
    assert Safe(p, 2, 2);
    OnlySafeColumn(p, 2);
    Below302(p + [2]);
  }

  lemma Below31(p: seq<int>)
    requires p == [3, 1]
    ensures Completions(4, p) == []
  {
    Attacked(p, 0, 1); Attacked(p, 1, 0); Attacked(p, 2, 1); Attacked(p, 3, 0);
    NoSafeColumn(p);
  }

  lemma Below3(p: seq<int>)
    requires p == [3]
    ensures Completions(4, p) == []
  {
    Attacked(p, 2, 0); Attacked(p, 3, 0);
    assert Safe(p, 1, 0);
    assert Safe(p, 1, 1);
    Unfold4(p);
    Below30(p + [0]);
    Below31(p + [1]);
  }

  /** Below the empty board: all four squares of the first row are Safe. */
  lemma FromEmpty(p: seq<int>)
    requires p == []
    ensures Completions(4, p) == [[1, 3, 0, 2], [2, 0, 3, 1]]
  {
    assert Safe(p, 0, 0);
    assert Safe(p, 0, 1);
    assert Safe(p, 0, 2);
    assert Safe(p, 0, 3);
    Unfold4(p);
    Below0(p + [0]);
    Below1(p + [1]);
    Below2(p + [2]);
    Below3(p + [3]);
  }

  /** The search from the empty 4x4 board reports exactly two solutions, in this order. */
  lemma FourQueens()
    ensures AllSolutions(4) == [[1, 3, 0, 2], [2, 0, 3, 1]]
  {
    FromEmpty([]);
  }
}
