/** StateManagerVerticle: the shared store of the distributed search. It keeps
    the partial placements published for each row under the key "row_<row>",
    and the list of complete solutions reported to it with their count. Each
    event-bus consumer of the verticle is a method here; a request's reply is
    the method's result. */
module StateStore {
  import opened Config

  /** The two kinds of message workers send to the store: "state.update"
      (a row and its partial placements) and "solution.found" (one solution). */
  datatype Message =
    | StateUpdate(row: int, states: seq<seq<int>>)
    | SolutionFound(solution: seq<int>)

  /** The event-bus address a message is sent to. */
  function Address(m: Message): (addr: string)
    ensures addr == STATE_UPDATE_ADDRESS <==> m.StateUpdate?
    ensures addr == SOLUTION_FOUND_ADDRESS <==> m.SolutionFound?
  {
    match m
    case StateUpdate(_, _) => STATE_UPDATE_ADDRESS
    case SolutionFound(_) => SOLUTION_FOUND_ADDRESS
  }

  /** The solutions carried by a stream of messages, in the order sent. */
  function SolutionsIn(msgs: seq<Message>): seq<seq<int>>
  {
    if msgs == [] then [] else Carried(msgs[0]) + SolutionsIn(msgs[1..])
  }

  function Carried(m: Message): seq<seq<int>>
  {
    match m
    case SolutionFound(q) => [q]
    case StateUpdate(_, _) => []
  }

  /** One "solution.found" message per solution, in order. */
  function SolutionMessages(s: seq<seq<int>>): (msgs: seq<Message>)
    ensures |msgs| == |s|
  {
    seq(|s|, i requires 0 <= i < |s| => SolutionFound(s[i]))
  }

  /** The solutions of a stream that starts with m: m's, then the rest's. */
  lemma SolutionsInCons(m: Message, rest: seq<Message>)
    ensures SolutionsIn([m] + rest) == Carried(m) + SolutionsIn(rest)
  {
    assert ([m] + rest)[1..] == rest;
  }

  /** Reading the solutions out of a concatenation of streams reads each stream in turn. */
  lemma {:induction false} SolutionsInConcat(a: seq<Message>, b: seq<Message>)
    ensures SolutionsIn(a + b) == SolutionsIn(a) + SolutionsIn(b)
    decreases |a|
  {
    if a == [] {
      assert a + b == b;
    } else {
      assert a + b == [a[0]] + (a[1..] + b);
      SolutionsInCons(a[0], a[1..] + b);
      SolutionsInConcat(a[1..], b);
    }
  }

  /** A stream of row updates alone carries no solution. */
  lemma {:induction false} NoSolutionsIn(msgs: seq<Message>)
    requires forall m :: m in msgs ==> m.StateUpdate?
    ensures SolutionsIn(msgs) == []
    decreases |msgs|
  {
    if msgs != [] {
      assert msgs[0] in msgs;
      assert forall m :: m in msgs[1..] ==> m in msgs;
      NoSolutionsIn(msgs[1..]);
    }
  }

  /** The solutions sent one per message are read back unchanged and in order. */
  lemma {:induction false} SolutionMessagesRoundTrip(s: seq<seq<int>>)
    ensures SolutionsIn(SolutionMessages(s)) == s
    decreases |s|
  {
    if s != [] {
      assert SolutionMessages(s) == [SolutionFound(s[0])] + SolutionMessages(s[1..]);
      SolutionsInCons(SolutionFound(s[0]), SolutionMessages(s[1..]));
      SolutionMessagesRoundTrip(s[1..]);
      assert s == [s[0]] + s[1..];
    }
  }

  /** The cache key of a row: "row_" followed by the row in decimal. */
  function RowKey(row: int): (key: string)
    ensures |key| > 4 && key[..4] == "row_" && key[4..] == DecimalString(row)
  {
    "row_" + DecimalString(row)
  }

  /** Different rows never share a cache entry. */
  lemma RowKeyInjective(a: int, b: int)
    requires RowKey(a) == RowKey(b)
    ensures a == b
  {
    assert DecimalString(a) == RowKey(a)[4..] == RowKey(b)[4..] == DecimalString(b);
    DecimalStringInjective(a, b);
  }

  /** The placements listed in a request, as a set. */
  function Members(states: seq<seq<int>>): set<seq<int>>
  {
    set s | s in states
  }

  /** The "solution.broadcast" notification: the running number of the solution and the solution. */
  datatype Broadcast = Broadcast(solutionNumber: int, solution: seq<int>)

  /** The reply to "state.summary". */
  datatype Summary = Summary(totalSolutions: int, solutions: seq<seq<int>>, cacheSize: nat)

  class StateManagerVerticle {
    /** Partial placements per row key; a set, so a placement is kept once. */
    var stateCache: map<string, set<seq<int>>>
    var solutionCount: int
    var completeSolutions: seq<seq<int>>

    /** The counter always equals the number of stored solutions. */
    ghost predicate Valid()
      reads this
    {
      solutionCount == |completeSolutions|
    }

    constructor ()
      ensures Valid()
      ensures stateCache == map[] && completeSolutions == []
    {
      stateCache := map[];
      solutionCount := 0;
      completeSolutions := [];
    }

    /** The placements stored for a row; a row never updated holds none. */
    function StatesAt(row: int): set<seq<int>>
      reads this
    {
      if RowKey(row) in stateCache then stateCache[RowKey(row)] else {}
    }

    /** "state.get": the placements stored for the row, each once, in the
        set's iteration order (which the model leaves open). */
    method Get(row: int) returns (states: seq<seq<int>>)
      ensures forall s :: s in states <==> s in StatesAt(row)
      ensures forall i, j :: 0 <= i < j < |states| ==> states[i] != states[j]
    {
      var stored := StatesAt(row);
      var rest := stored;
      states := [];
      while rest != {}
        invariant rest <= stored
        invariant forall s :: s in states <==> s in stored && s !in rest
        invariant forall i, j :: 0 <= i < j < |states| ==> states[i] != states[j]
        decreases |rest|
      {
        var s :| s in rest;
        states := states + [s];
        rest := rest - {s};
      }
    }

    /** "state.update": the row's entry is created if absent and every new
        placement is added to it; the reply status is "updated". Every other
        row keeps its placements, and the solutions are untouched. */
    method Update(row: int, newStates: seq<seq<int>>) returns (status: string)
      modifies this
      ensures stateCache == old(stateCache)[RowKey(row) := old(StatesAt(row)) + Members(newStates)]
      ensures stateCache.Keys == old(stateCache.Keys) + {RowKey(row)}
      ensures forall r :: StatesAt(r) == if r == row then old(StatesAt(r)) + Members(newStates) else old(StatesAt(r))
      ensures solutionCount == old(solutionCount) && completeSolutions == old(completeSolutions)
      ensures status == "updated"
      ensures old(StatesAt(row)) <= StatesAt(row)
      ensures Members(newStates) <= old(StatesAt(row)) ==> StatesAt(row) == old(StatesAt(row))
      ensures |stateCache| == |old(stateCache)| + if RowKey(row) in old(stateCache) then 0 else 1
    {
      var key := RowKey(row);
      var states := StatesAt(row);
      stateCache := stateCache[key := states];
      var i := 0;
      while i < |newStates|
        invariant 0 <= i <= |newStates|
        invariant states == old(StatesAt(row)) + Members(newStates[..i])
        invariant stateCache == old(stateCache)[key := states]
        invariant solutionCount == old(solutionCount) && completeSolutions == old(completeSolutions)
      {
        assert Members(newStates[..i + 1]) == Members(newStates[..i]) + {newStates[i]} by {
          assert newStates[..i + 1] == newStates[..i] + [newStates[i]];
        }
        states := states + {newStates[i]};
        stateCache := stateCache[key := states];
        i := i + 1;
      }
      assert newStates[..i] == newStates;
      forall r ensures StatesAt(r) == if r == row then old(StatesAt(r)) + Members(newStates) else old(StatesAt(r)) {
        if RowKey(r) == key {
          RowKeyInjective(r, row);
        }
      }
      status := "updated";
    }

    /** "solution.found": the solution is appended and counted, and the
        broadcast numbers it by its position in the list, from 1. */
    method RecordSolution(solution: seq<int>) returns (b: Broadcast)
      requires Valid()
      modifies this
      ensures Valid()
      ensures completeSolutions == old(completeSolutions) + [solution]
      ensures solutionCount == old(solutionCount) + 1
      ensures stateCache == old(stateCache)
      ensures b.solutionNumber == |completeSolutions| && b.solution == solution
    {
      completeSolutions := completeSolutions + [solution];
      solutionCount := solutionCount + 1;
      b := Broadcast(solutionCount, solution);
    }

    /** "state.summary": the count, a copy of every solution in arrival order,
        and the number of rows in the cache. */
    method GetSummary() returns (s: Summary)
      requires Valid()
      ensures s.solutions == completeSolutions
      ensures s.totalSolutions == |s.solutions|
      ensures s.cacheSize == |stateCache|
    {
      var solutionsJson: seq<seq<int>> := [];
      var i := 0;
      while i < |completeSolutions|
        invariant 0 <= i <= |completeSolutions|
        invariant solutionsJson == completeSolutions[..i]
      {
        assert completeSolutions[..i + 1] == completeSolutions[..i] + [completeSolutions[i]];
        solutionsJson := solutionsJson + [completeSolutions[i]];
        i := i + 1;
      }
      assert completeSolutions[..i] == completeSolutions;
      s := Summary(solutionCount, solutionsJson, |stateCache|);
    }

    /** "state.reset": the cache, the solutions and the counter are cleared;
        the reply status is "reset". */
    method Reset() returns (status: string)
      modifies this
      ensures Valid()
      ensures stateCache == map[] && completeSolutions == [] && solutionCount == 0
      ensures status == "reset"
    {
      stateCache := map[];
      completeSolutions := [];
      solutionCount := 0;
      status := "reset";
    }

    /** The consumer a message's address selects. */
    method Receive(m: Message)
      requires Valid()
      modifies this
      ensures Valid()
      ensures completeSolutions == old(completeSolutions) + Carried(m)
      ensures m.SolutionFound? ==> stateCache == old(stateCache)
      ensures m.StateUpdate? ==>
        forall r :: StatesAt(r) == if r == m.row then old(StatesAt(r)) + Members(m.states) else old(StatesAt(r))
    {
      match m
      case StateUpdate(row, states) =>
        var _ := Update(row, states);
      case SolutionFound(solution) =>
        var _ := RecordSolution(solution);
    }

    /** The event bus handing the store a worker's messages in the order they
        were sent: the solutions among them are appended in that order. */
    method ReceiveAll(msgs: seq<Message>)
      requires Valid()
      modifies this
      ensures Valid()
      ensures completeSolutions == old(completeSolutions) + SolutionsIn(msgs)
    {
      var i := 0;
      while i < |msgs|
        invariant 0 <= i <= |msgs|
        invariant Valid()
        invariant completeSolutions == old(completeSolutions) + SolutionsIn(msgs[..i])
      {
        Receive(msgs[i]);
        assert msgs[..i + 1] == msgs[..i] + [msgs[i]];
        SolutionsInConcat(msgs[..i], [msgs[i]]);
        SolutionsInCons(msgs[i], []);
        assert [msgs[i]] + [] == [msgs[i]];
        i := i + 1;
      }
      assert msgs[..i] == msgs;
    }
  }
}
