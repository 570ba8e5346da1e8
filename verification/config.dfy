/** ApplicationConfig: the bounds, defaults and timeouts of the service, and the
    small rules derived from them (range checks, the timeout table, heap sizing
    and the event-bus address of a worker). */
module Config {

  // Board size and worker count
  const MIN_BOARD_SIZE: int := 1
  const MAX_BOARD_SIZE: int := 20
  const DEFAULT_BOARD_SIZE: int := 8
  const MIN_WORKERS: int := 1
  const MAX_WORKERS: int := 10
  const DEFAULT_WORKERS: int := 4

  // Timeouts, in milliseconds
  const DEFAULT_EXECUTION_TIMEOUT_MS: int := 60_000
  const DEFAULT_WORKER_TIMEOUT_MS: int := 30_000
  const MONITORING_TIMEOUT_MS: int := 65_000
  const PROGRESS_CHECK_INTERVAL_MS: int := 1_000

  // Heap sizes, in megabytes
  const MIN_HEAP_SIZE_MB: int := 256
  const MAX_HEAP_SIZE_MB: int := 2048

  // Event-bus addresses
  const ORCHESTRATOR_ADDRESS: string := "orquestador.nreinas"
  const STATE_UPDATE_ADDRESS: string := "state.update"
  const STATE_GET_ADDRESS: string := "state.get"
  const SOLUTION_FOUND_ADDRESS: string := "solution.found"
  const SOLUTION_BROADCAST_ADDRESS: string := "solution.broadcast"
  const STATE_SUMMARY_ADDRESS: string := "state.summary"
  const STATE_RESET_ADDRESS: string := "state.reset"
  const WORKER_ADDRESS_PREFIX: string := "worker"

  /** The defaults lie within their own bounds. */
  lemma DefaultsWithinBounds()
    ensures MIN_BOARD_SIZE <= DEFAULT_BOARD_SIZE <= MAX_BOARD_SIZE
    ensures MIN_WORKERS <= DEFAULT_WORKERS <= MAX_WORKERS
    ensures MIN_HEAP_SIZE_MB <= MAX_HEAP_SIZE_MB
  {
  }

  /** Accepts exactly the board sizes 1..20. */
  function IsValidBoardSize(boardSize: int): (ok: bool)
    ensures ok <==> 1 <= boardSize <= 20
  {
    boardSize >= MIN_BOARD_SIZE && boardSize <= MAX_BOARD_SIZE
  }

  /** Accepts exactly the worker counts 1..10. */
  function IsValidWorkerCount(numWorkers: int): (ok: bool)
    ensures ok <==> 1 <= numWorkers <= 10
  {
    numWorkers >= MIN_WORKERS && numWorkers <= MAX_WORKERS
  }

  /** The send timeout for a board: one, two or four times the default execution
      timeout, by size class. */
  function CalculateRecommendedTimeout(boardSize: int): (ms: int)
    ensures DEFAULT_EXECUTION_TIMEOUT_MS <= ms <= 4 * DEFAULT_EXECUTION_TIMEOUT_MS
    ensures boardSize <= 8 <==> ms == 60_000
    ensures 8 < boardSize <= 12 <==> ms == 120_000
    ensures 12 < boardSize <==> ms == 240_000
  {
    var baseTimeout := DEFAULT_EXECUTION_TIMEOUT_MS;
    if boardSize <= 8 then baseTimeout
    else if boardSize <= 12 then baseTimeout * 2
    else baseTimeout * 4
  }

  /** A larger board never gets a shorter timeout. */
  lemma TimeoutMonotone(a: int, b: int)
    requires a <= b
    ensures CalculateRecommendedTimeout(a) <= CalculateRecommendedTimeout(b)
  {
  }

  // ---------------------------------------------------------------------------
  // Java's 32-bit int arithmetic

  const INT_MIN: int := -0x8000_0000
  const INT_MAX: int := 0x7FFF_FFFF

  predicate IsInt32(x: int)
  {
    INT_MIN <= x <= INT_MAX
  }

  /** The values of a Java `int` variable. */
  type Int32 = x: int | INT_MIN <= x <= INT_MAX

  /** Two's-complement wrap-around: the int congruent to x modulo 2^32, reached
      by adding or removing 2^32 until the value lies in the int range. */
  function Wrap32(x: int): (r: int)
    ensures IsInt32(r)
    ensures IsInt32(x) ==> r == x
    decreases if x > INT_MAX then x - INT_MAX else if x < INT_MIN then INT_MIN - x else 0
  {
    if x > INT_MAX then Wrap32(x - 0x1_0000_0000)
    else if x < INT_MIN then Wrap32(x + 0x1_0000_0000)
    else x
  }

  /** The wrapped value differs from x by a multiple of 2^32. */
  lemma {:induction false} WrapCongruent(x: int)
    ensures (Wrap32(x) - x) % 0x1_0000_0000 == 0
    decreases if x > INT_MAX then x - INT_MAX else if x < INT_MIN then INT_MIN - x else 0
  {
    if x > INT_MAX {
      WrapCongruent(x - 0x1_0000_0000);
    } else if x < INT_MIN {
      WrapCongruent(x + 0x1_0000_0000);
    }
  }

  /** An int congruent to x modulo 2^32 is Wrap32(x). */
  lemma WrapUnique(x: int, r: int)
    requires IsInt32(r) && (r - x) % 0x1_0000_0000 == 0
    ensures Wrap32(x) == r
  {
    WrapCongruent(x);
    var w := Wrap32(x);
    assert (w - r) % 0x1_0000_0000 == 0 by {
      ModDifference(w - x, r - x);
    }
  }

  lemma ModDifference(a: int, b: int)
    requires a % 0x1_0000_0000 == 0 && b % 0x1_0000_0000 == 0
    ensures (a - b) % 0x1_0000_0000 == 0
  {
    assert a == (a / 0x1_0000_0000) * 0x1_0000_0000;
    assert b == (b / 0x1_0000_0000) * 0x1_0000_0000;
    assert a - b == (a / 0x1_0000_0000 - b / 0x1_0000_0000) * 0x1_0000_0000;
  }

  /** Wrapping an intermediate sum does not change the wrapped total, so a
      counter bumped by `++` step by step ends at the wrapped total count. */
  lemma WrapAdd(a: int, b: int)
    ensures Wrap32(Wrap32(a) + b) == Wrap32(a + b)
  {
    var r := Wrap32(a + b);
    WrapCongruent(a + b);
    WrapCongruent(a);
    assert r - (Wrap32(a) + b) == (r - (a + b)) - (Wrap32(a) - a);
    ModDifference(r - (a + b), Wrap32(a) - a);
    WrapUnique(Wrap32(a) + b, r);
  }

  /** Java's `a * b` on two ints: the mathematical product reduced into the int range. */
  function Int32Mul(a: int, b: int): (r: int)
    ensures IsInt32(r)
    ensures IsInt32(a * b) ==> r == a * b
    ensures (r - a * b) % 0x1_0000_0000 == 0
  {
    WrapCongruent(a * b);
    Wrap32(a * b)
  }

  /** The heap recommendation: 256 MB, or 512 MB when boardSize * numWorkers (a
      32-bit product) is above 50, or 1024 MB when it is above 100. */
  function GetRecommendedHeapSize(boardSize: int, numWorkers: int): (mb: int)
    ensures mb == 256 || mb == 512 || mb == 1024
    ensures MIN_HEAP_SIZE_MB <= mb <= MAX_HEAP_SIZE_MB
    ensures IsInt32(boardSize * numWorkers) ==>
      && (mb == 256 <==> boardSize * numWorkers <= 50)
      && (mb == 512 <==> 50 < boardSize * numWorkers <= 100)
      && (mb == 1024 <==> 100 < boardSize * numWorkers)
  {
    var baseMemory := MIN_HEAP_SIZE_MB;
    var complexityFactor := Int32Mul(boardSize, numWorkers);
    if complexityFactor > 100 then Min(MAX_HEAP_SIZE_MB, baseMemory * 4)
    else if complexityFactor > 50 then Min(MAX_HEAP_SIZE_MB, baseMemory * 2)
    else baseMemory
  }

  function Min(a: int, b: int): int
  {
    if a <= b then a else b
  }

  /** Under the validated bounds the product cannot wrap, so the heap size follows
      boardSize * numWorkers directly. */
  lemma HeapSizeForValidInput(boardSize: int, numWorkers: int)
    requires IsValidBoardSize(boardSize) && IsValidWorkerCount(numWorkers)
    ensures GetRecommendedHeapSize(boardSize, numWorkers) ==
      if boardSize * numWorkers > 100 then 1024
      else if boardSize * numWorkers > 50 then 512
      else 256
  {
    assert 0 < boardSize * numWorkers <= 200 by {
      assert boardSize * numWorkers <= 20 * numWorkers <= 200;
    }
  }

  // ---------------------------------------------------------------------------
  // Decimal rendering of ints and worker addresses

  function DigitChar(d: int): (c: char)
    requires 0 <= d < 10
    ensures '0' <= c <= '9'
  {
    "0123456789"[d]
  }

  function DigitValue(c: char): (d: nat)
    requires '0' <= c <= '9'
    ensures d < 10
  {
    (c as int) - ('0' as int)
  }

  predicate AllDigits(s: string)
  {
    forall k :: 0 <= k < |s| ==> '0' <= s[k] <= '9'
  }

  /** The decimal digits of n, most significant first, without leading zeros. */
  function NatDigits(n: nat): (s: string)
    ensures |s| >= 1 && AllDigits(s)
    ensures |s| > 1 ==> s[0] != '0'
    decreases n
  {
    if n < 10 then [DigitChar(n)] else NatDigits(n / 10) + [DigitChar(n % 10)]
  }

  /** The number a string of decimal digits denotes. */
  function DigitsValue(s: string): nat
    requires AllDigits(s)
  {
    if s == [] then 0 else DigitsValue(s[..|s| - 1]) * 10 + DigitValue(s[|s| - 1])
  }

  /** Reading back the digits of n gives n. */
  lemma {:induction false} DigitsRoundTrip(n: nat)
    ensures DigitsValue(NatDigits(n)) == n
    decreases n
  {
    var s := NatDigits(n);
    if n < 10 {
      assert DigitValue(DigitChar(n)) == n;
      assert s[..0] == [];
    } else {
      DigitsRoundTrip(n / 10);
      assert s[..|s| - 1] == NatDigits(n / 10);
      assert DigitValue(DigitChar(n % 10)) == n % 10;
    }
  }

  /** Integer.toString: an optional minus sign, then the digits of the magnitude. */
  function DecimalString(i: int): string
  {
    if i < 0 then "-" + NatDigits(-i) else NatDigits(i)
  }

  /** Equal digit strings denote equal numbers. */
  lemma NatDigitsInjective(a: nat, b: nat)
    requires NatDigits(a) == NatDigits(b)
    ensures a == b
  {
    DigitsRoundTrip(a);
    DigitsRoundTrip(b);
  }

  /** Distinct ints have distinct decimal renderings. */
  lemma {:induction false} DecimalStringInjective(a: int, b: int)
    requires DecimalString(a) == DecimalString(b)
    ensures a == b
  {
    var s := DecimalString(a);
    if a < 0 && b < 0 {
      assert s[1..] == NatDigits(-a) && s[1..] == NatDigits(-b);
      NatDigitsInjective(-a, -b);
    } else if a < 0 || b < 0 {
      // one rendering starts with '-', the other with a digit
      assert false;
    } else {
      NatDigitsInjective(a, b);
    }
  }

  /** The address a worker listens on for work units: "worker.<id>.process". */
  function GetWorkerAddress(workerId: int): (addr: string)
    ensures |addr| > 15
    ensures addr[..7] == "worker." && addr[|addr| - 8..] == ".process"
    ensures addr[7..|addr| - 8] == DecimalString(workerId)
  {
    WORKER_ADDRESS_PREFIX + "." + DecimalString(workerId) + ".process"
  }

  /** Each worker id has its own address, so work units never reach another worker. */
  lemma {:induction false} WorkerAddressInjective(a: int, b: int)
    requires GetWorkerAddress(a) == GetWorkerAddress(b)
    ensures a == b
  {
    var s := GetWorkerAddress(a);
    assert DecimalString(a) == s[7..|s| - 8] == DecimalString(b);
    DecimalStringInjective(a, b);
  }
}
