/** How the benchmark turns its three positional arguments into a run
    configuration: a matrix size, a transposition flag and a thread count.
    None of these steps can fail; malformed text falls back to a default. */
module Arguments {
  import opened Decimal

  const MIN_THREADS: int := 1
  const MAX_THREADS: int := 6

  datatype Option<T> = None | Some(value: T)

  /** Whether the two characters "-P" start at index `i` of `s`. */
  predicate MarkerAt(s: string, i: int) {
    0 <= i && i + 1 < |s| && s[i] == '-' && s[i + 1] == 'P'
  }

  /** `std::string::find("-P", from)`: the first occurrence at or after `from`,
      `None` standing for `npos`. */
  function FindMarker(s: string, from: nat): (r: Option<nat>)
    requires from <= |s|
    ensures r.Some? ==> from <= r.value && MarkerAt(s, r.value)
    ensures r.Some? ==> forall m :: from <= m < r.value ==> !MarkerAt(s, m)
    ensures r.None? ==> forall m :: from <= m < |s| ==> !MarkerAt(s, m)
    decreases |s| - from
  {
    if from + 1 >= |s| then None
    else if MarkerAt(s, from) then Some(from)
    else FindMarker(s, from + 1)
  }

  /** `getMatrixSize`: the parsed size when it is positive, 1 otherwise. */
  function GetMatrixSize(arg: string): (size: int)
    requires FitsInt(Atoi(arg))
    ensures 1 <= size <= INT_MAX
    ensures Atoi(arg) >= 1 ==> size == Atoi(arg)
    ensures Atoi(arg) < 1 ==> size == 1
  {
    var parsed := Atoi(arg);
    if parsed > 0 then parsed else 1
  }

  /** `isTransposed`: only the exact three-character text "-T1" turns transposition on. */
  function IsTransposed(arg: string): (transposed: bool)
    ensures transposed <==> |arg| == 3 && arg[0] == '-' && arg[1] == 'T' && arg[2] == '1'
  {
    arg == "-T1"
  }

  /** `getNumOfThreads`: if "-P" occurs anywhere in the argument, the number read
      from index 2 onwards (wherever the marker was), brought into
      [MIN_THREADS, MAX_THREADS]; without the marker, one thread. */
  function GetNumOfThreads(arg: string): (n: int)
    requires FindMarker(arg, 0).Some? ==> FitsInt(Atoi(arg[2..]))
    ensures MIN_THREADS <= n <= MAX_THREADS
    ensures FindMarker(arg, 0).None? ==> n == MIN_THREADS
    ensures FindMarker(arg, 0).Some? ==>
      var t := Atoi(arg[2..]);
      && (MIN_THREADS <= t <= MAX_THREADS ==> n == t)
      && (t < MIN_THREADS ==> n == MIN_THREADS)
      && (t > MAX_THREADS ==> n == MAX_THREADS)
  {
    if FindMarker(arg, 0).Some? then
      var t := Atoi(arg[2..]);
      if t > 1 && t <= MAX_THREADS then t
      else if t > MAX_THREADS then MAX_THREADS
      else 1
    else 1
  }

  /** The run configuration `main` derives from its arguments. */
  datatype Config = Config(matrixSize: int, transposed: bool, numOfThreads: int)

  predicate ValidConfig(c: Config) {
    1 <= c.matrixSize <= INT_MAX && MIN_THREADS <= c.numOfThreads <= MAX_THREADS
  }

  /** Reads the three arguments; the result is always a usable configuration. */
  function Configure(sizeArg: string, flagArg: string, threadsArg: string): (c: Config)
    requires FitsInt(Atoi(sizeArg))
    requires FindMarker(threadsArg, 0).Some? ==> FitsInt(Atoi(threadsArg[2..]))
    ensures ValidConfig(c)
    ensures c.transposed <==> flagArg == "-T1"
  {
    Config(GetMatrixSize(sizeArg), IsTransposed(flagArg), GetNumOfThreads(threadsArg))
  }

  /** The size argument written as the decimal text of `n` gives `n` when it is
      positive and 1 otherwise. */
  lemma MatrixSizeOfDecimal(n: int)
    requires FitsInt(n)
    ensures Atoi(IntToString(n)) == n
    ensures GetMatrixSize(IntToString(n)) == if n >= 1 then n else 1
  {
    AtoiOfIntToString(n, "");
    assert IntToString(n) + "" == IntToString(n);
  }

  /** "-P" followed by the decimal text of `t` (and anything not starting with a
      digit) asks for `t` threads, clamped into [MIN_THREADS, MAX_THREADS]. */
  lemma ThreadsOfFlag(t: int, rest: string)
    requires FitsInt(t)
    requires rest == [] || !IsDigit(rest[0])
    ensures MarkerAt("-P" + IntToString(t) + rest, 0)
    ensures Atoi(("-P" + IntToString(t) + rest)[2..]) == t
    ensures GetNumOfThreads("-P" + IntToString(t) + rest) ==
      if t < MIN_THREADS then MIN_THREADS else if t > MAX_THREADS then MAX_THREADS else t
  {
    var arg := "-P" + IntToString(t) + rest;
    assert MarkerAt(arg, 0);
    assert FindMarker(arg, 0) == Some(0);
    assert arg[2..] == IntToString(t) + rest;
    AtoiOfIntToString(t, rest);
  }

  /** A thread argument that never contains "-P" gives one thread, whatever else it holds. */
  lemma ThreadsWithoutMarker(arg: string)
    requires forall m :: !MarkerAt(arg, m)
    ensures GetNumOfThreads(arg) == MIN_THREADS
  {
  }

  /** The size of the usage example, `1000`, is taken as it is. */
  lemma MatrixSizeExampleUsage()
    ensures Atoi("1000") == 1000
    ensures GetMatrixSize("1000") == 1000
  {
    assert NatToString(10) == "10" && NatToString(100) == "100";
    assert IntToString(1000) == "1000";
    MatrixSizeOfDecimal(1000);
  }

  /** Sizes that are not positive, or not numbers at all, fall back to 1. */
  lemma MatrixSizeExamplesFallback()
    ensures Atoi("0") == 0 && Atoi("-5") == -5 && Atoi("abc") == 0
    ensures GetMatrixSize("0") == 1 && GetMatrixSize("-5") == 1 && GetMatrixSize("abc") == 1
  {
    assert IntToString(0) == "0" && IntToString(-5) == "-5";
    MatrixSizeOfDecimal(0);
    MatrixSizeOfDecimal(-5);
    AtoiWithoutDigits("abc");
  }

  /** Only "-T1" itself switches transposition on. */
  lemma TransposeExamples()
    ensures IsTransposed("-T1")
    ensures !IsTransposed("-T0") && !IsTransposed("-T10") && !IsTransposed("T1") && !IsTransposed(" -T1")
  {
  }

  /** The usage example `-P2` asks for two threads. */
  lemma ThreadsExampleInRange()
    ensures FindMarker("-P2", 0) == Some(0) && Atoi("2") == 2
    ensures GetNumOfThreads("-P2") == 2
  {
    assert IntToString(2) == "2";
    assert "-P" + IntToString(2) + "" == "-P2";
    ThreadsOfFlag(2, "");
  }

  /** Counts above six give six threads, counts below one give one. */
  lemma ThreadsExamplesClamped()
    ensures FindMarker("-P9", 0) == Some(0) && Atoi("9") == 9
    ensures GetNumOfThreads("-P9") == 6
    ensures FindMarker("-P0", 0) == Some(0) && Atoi("0") == 0
    ensures GetNumOfThreads("-P0") == 1
  {
    assert IntToString(9) == "9" && IntToString(0) == "0";
    assert "-P" + IntToString(9) + "" == "-P9";
    assert "-P" + IntToString(0) + "" == "-P0";
    ThreadsOfFlag(9, "");
    ThreadsOfFlag(0, "");
  }

  /** No digits after "-P" gives one thread. */
  lemma ThreadsExampleNoDigits()
    ensures FindMarker("-Pabc", 0) == Some(0) && Atoi("abc") == 0
    ensures GetNumOfThreads("-Pabc") == 1
  {
    assert MarkerAt("-Pabc", 0);
    assert "-Pabc"[2..] == "abc";
    AtoiWithoutDigits("abc");
  }

  /** The number is read from index 2 wherever "-P" stands: in `x-P3` that is
      the text "P3", which has no digits, so one thread. */
  lemma ThreadsExampleMarkerLater()
    ensures FindMarker("x-P3", 0) == Some(1) && Atoi("P3") == 0
    ensures GetNumOfThreads("x-P3") == 1
  {
    assert !MarkerAt("x-P3", 0) && MarkerAt("x-P3", 1);
    assert FindMarker("x-P3", 0) == FindMarker("x-P3", 1);
    assert "x-P3"[2..] == "P3";
    AtoiWithoutDigits("P3");
  }

  /** A bare count without "-P" is not read at all: one thread. */
  lemma ThreadsExampleNoMarker()
    ensures FindMarker("6", 0).None?
    ensures GetNumOfThreads("6") == 1
  {
    ThreadsWithoutMarker("6");
  }
}
