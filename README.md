# zadanie: a matrix-multiplication benchmark, modelled in Dafny

`zadanie` multiplies two random square matrices of `int` and times the
multiplication. It takes three arguments: the matrix size, a transposition flag
(`-T1` means B is already stored transposed), and a thread count (`-P1` to `-P6`).
`main` splits the rows of the result C into one packet per thread. It starts
`n - 1` worker threads and does the last packet, remainder included, on its own
thread. Each call of `multiplyTwo2DArrays` fills all but the last row of its
packet (see Findings).

This project models the sequential core of that program:

- **Decimal** (`decimal.dfy`): `std::atoi` as the program uses it. It skips
  white space, takes one optional sign, reads the longest run of digits, and
  gives 0 when there are no digits. Values are unbounded integers. Also here:
  the decimal text of an integer, and the round trip between the two.
- **Arguments** (`arguments.dfy`): `getMatrixSize`, `isTransposed`,
  `getNumOfThreads`, and the `std::string::find("-P")` they rely on.
- **Partition** (`partition.dfy`): the row split of `main`, and the row
  interval each call derives from its packet. Two views are modelled:
  - the bound as written, which is exclusive of `first + numOfElements - 1 + remainder`;
  - the evidently intended bound, without the `- 1`.
- **Matrices** (`matrices.dfy`): the matrices as values, and what one call
  (`Call`) and a sequence of calls (`Run`) do to the result. This is where
  "the order of the calls does not matter" is proved.
- **Multiply** (`multiply.dfy`): `multiplyTwo2DArrays` and the dispatch of
  `main`, as methods over `array2<int>`. Each is proved equal to its value-level
  counterpart.
  - The three nested loops of `multiplyTwo2DArrays` are written as three
    methods, one per loop: `AssignTerms` for `k`, `AssignRow` for `j`, and
    `MultiplyTwo2DArrays` for `i`. Together they do exactly what the nested
    loops do.
  - The worker threads become calls made one after the other. `Dispatch` makes
    them in the order the threads are started. `DispatchScheduled` makes them
    in any order a schedule gives.

The code has two evident defects, listed under Findings. The model follows the
code as written. The corrected behaviour is modelled and proved beside it, as
`MultiplyRowsIntended` and `DispatchIntended` (the result is the real product)
and the `Intended…` lemmas (the packets partition the rows).

## Model

| member | source | states |
|---|---|---|
| Decimal.Atoi | zadanie.cpp:103 | `atoi`: skip white space, take one optional sign, read the longest run of digits; the result has the sign taken, and is 0 without digits (its other properties are the three lemmas below) |
| Decimal.AtoiOfIntToString | zadanie.cpp:103 | atoi reads back the decimal text of any integer, whatever non-digit text follows it |
| Decimal.NumberStartSkipsSpaces | zadanie.cpp:103 | behind leading white space the number starts at the same place, shifted, and has the same sign |
| Decimal.AtoiSkipsSpaces | zadanie.cpp:103 | leading white space does not change what atoi reads |
| Decimal.AtoiWithoutDigits | zadanie.cpp:103 | without a digit after the white space and the sign, atoi gives 0 |
| Arguments.FindMarker | zadanie.cpp:111 | `find("-P")` gives the first occurrence of the marker at or after the start index, or none if there is none |
| Arguments.GetMatrixSize | zadanie.cpp:101-105 | the size is always in [1, INT_MAX]: the parsed value if it is positive, 1 otherwise |
| Arguments.IsTransposed | zadanie.cpp:94-99 | true exactly when the argument is the three characters `-T1` |
| Arguments.GetNumOfThreads | zadanie.cpp:107-120 | always in [MIN_THREADS, MAX_THREADS]; 1 without `-P`; with it, the value read from index 2 on, clamped into [1, 6] |
| Arguments.Configure | zadanie.cpp:38-40 | the three arguments always give a usable configuration, and transposition is on exactly for `-T1` |
| Arguments.MatrixSizeOfDecimal | zadanie.cpp:101-105 | a size argument written as the decimal text of `n` gives `n` when positive and 1 otherwise |
| Arguments.ThreadsOfFlag | zadanie.cpp:111-116 | `-P` followed by the decimal text of `t` gives `t` clamped into [1, 6] |
| Arguments.ThreadsWithoutMarker | zadanie.cpp:111-119 | an argument with no `-P` anywhere gives one thread |
| Arguments.MatrixSizeExampleUsage | zadanie.cpp:101-105 | the usage example's size `1000` gives 1000 |
| Arguments.MatrixSizeExamplesFallback | zadanie.cpp:101-105 | `0`, `-5` and `abc` give 1 |
| Arguments.TransposeExamples | zadanie.cpp:94-99 | `-T1` transposes; `-T0`, `-T10`, `T1` and ` -T1` do not |
| Arguments.ThreadsExampleInRange | zadanie.cpp:111-115 | the usage example `-P2` gives 2 |
| Arguments.ThreadsExamplesClamped | zadanie.cpp:111-119 | `-P9` gives 6 and `-P0` gives 1 |
| Arguments.ThreadsExampleNoDigits | zadanie.cpp:111-119 | `-Pabc` gives 1 |
| Arguments.ThreadsExampleMarkerLater | zadanie.cpp:111-119 | `x-P3` finds the marker at index 1 but reads from index 2 (`P3`, no digits), so gives 1 |
| Arguments.ThreadsExampleNoMarker | zadanie.cpp:111-119 | `6`, without the marker, gives 1 |
| Partition.RowsPerThread | zadanie.cpp:49 | `columnsPerThread`: the whole size for one thread, else the quotient `r` with `n·r <= size < n·r + n` |
| Partition.RemainingRows | zadanie.cpp:50 | `remainingColumns`: the rows left over, in [0, n), with `n·r + rem == size` |
| Partition.Packets | zadanie.cpp:57-66 | the packets of `main`'s calls in `packetCounter` order, one per thread; packet `p` is `(p, r, 0)` for the workers and `(n-1, r, rem)` for the last call (computed; described by `PacketsEndToEnd`, `LastPacketBounds`, `PacketsFit` and `PacketsDisjoint`) |
| Partition.Packet.First | zadanie.cpp:155 | `indexFirstElementOfPacket = partOfMatrix * numOfElements` (computed, no contract) |
| Partition.Packet.Last | zadanie.cpp:156 | `indexLastElementOfPacket = first + numOfElements - 1 + remainder`, used as the exclusive bound of the row loop (computed, no contract) |
| Partition.PacketsEndToEnd | zadanie.cpp:57-66 | the packets lie end to end: the first starts at row 0 and each starts where the intended bound of the previous one ends |
| Partition.LastPacketBounds | zadanie.cpp:155-156 | the last call starts at `(n-1)*r`; its written bound is `size - 1` and its intended bound is `size` |
| Partition.PacketWithinMatrix | zadanie.cpp:155-158 | every row a call visits lies in [0, size - 1) |
| Partition.PacketsFit | zadanie.cpp:155-158 | every call of the run stays inside the matrix |
| Partition.PacketsDisjoint | zadanie.cpp:155-158 | no row is visited by two different calls |
| Partition.PacketRowCount | zadanie.cpp:156-158 | a call visits exactly `numOfElements - 1 + remainder` rows, or none when that is not positive |
| Partition.CoveredRowIsWritten | zadanie.cpp:155-158 | a row visited by some call satisfies the closed formula `WrittenRow` |
| Partition.WrittenRowIsCovered | zadanie.cpp:155-158 | every row satisfying `WrittenRow` is visited by some call |
| Partition.CoveredRows | zadanie.cpp:155-158 | a row is visited by some call exactly when it satisfies `WrittenRow` |
| Partition.LastRowNeverWritten | zadanie.cpp:156-158 | row `size - 1` is never written, for any size and thread count |
| Partition.OneThreadTwoRows | zadanie.cpp:156-158 | with size 2 and one thread, the single call writes row 0 and leaves row 1 alone |
| Partition.ThreadCountChangesRows | zadanie.cpp:156-158 | the thread count changes which rows are written: with 4 rows, row 1 is written with one thread and not with two |
| Partition.IntendedRowInMatrix | zadanie.cpp:155-158 | with the intended bound, every row a call visits lies in [0, size) |
| Partition.IntendedPacketsDisjoint | zadanie.cpp:155-158 | with the intended bound, no row is visited by two calls |
| Partition.IntendedRowHasPacket | zadanie.cpp:155-158 | with the intended bound, every row of the matrix is visited by some call |
| Partition.IntendedPacketsPartitionRows | zadanie.cpp:155-158 | with the intended bound, the packets partition [0, size): each row has exactly one packet, and no other row has any |
| Partition.IntendedPacketsFit | zadanie.cpp:155-158 | with the intended bound, every call stays inside the matrix |
| Matrices.RunCell | zadanie.cpp:57-66 | after any sequence of calls, a cell holds its last term if some call visits its row, and its old value otherwise |
| Matrices.RunOrderIrrelevant | zadanie.cpp:57-74 | any two sequences of calls made of the same packets leave the same result |
| Matrices.RunScheduled | zadanie.cpp:57-74 | making the calls in the order of any schedule that names every packet leaves the same result as making them in order |
| Matrices.CallsCommute | zadanie.cpp:153-171 | two calls commute |
| Matrices.CallIdempotent | zadanie.cpp:153-171 | making the same call twice is the same as making it once |
| Matrices.RunOfPackets | zadanie.cpp:57-66 | after the calls of `main`, the cells of `WrittenRow` rows hold last terms and every other cell keeps its old value |
| Matrices.LastTermIsNotTheProduct | zadanie.cpp:165-167 | with all-ones 2x2 matrices a cell holds 1 where the product has 2 |
| Multiply.AssignTerms | zadanie.cpp:162-168 | the loop over `k` leaves the last term in `C[i][j]` and changes no other cell |
| Multiply.AssignRow | zadanie.cpp:160-169 | the loop over `j` leaves last terms in row `i` and changes no other row |
| Multiply.MultiplyTwo2DArrays | zadanie.cpp:153-171 | the new result is `Call` of the old one: visited rows hold last terms, all else is unchanged, A and B are only read |
| Multiply.Dispatch | zadanie.cpp:49-66 | the result is `Run` over the packets of `main`; cellwise, `WrittenRow` rows hold last terms and the rest (row `size - 1` included) keep their old values |
| Multiply.DispatchScheduled | zadanie.cpp:57-74 | the calls made in any schedule's order leave the same result as `Dispatch` |
| Multiply.SumTerms | zadanie.cpp:162-168 | the intended loop over `k` leaves the dot product in `C[i][j]` and changes no other cell |
| Multiply.SumRow | zadanie.cpp:160-169 | the intended loop over `j` leaves row `i` of the product and changes no other row |
| Multiply.MultiplyRowsIntended | zadanie.cpp:153-171 | the intended call fills every row of its packet with the product and changes no other row |
| Multiply.DispatchIntended | zadanie.cpp:49-66 | with the intended calls, C ends up as the whole product A·B (A·Bᵀ when transposed) |

## Left out

- Threads and `join` (zadanie.cpp:53, 61, 68-74). The calls are modelled one
  after the other, in whole-call orders only. Finer interleavings are not
  modelled. What the program relies on is covered instead:
  - no row is written by two calls (`PacketsDisjoint`);
  - a call changes no row outside its own packet (`MultiplyTwo2DArrays`);
  - any order of the calls gives the same result (`RunScheduled`).
- Timing with `std::chrono` and the `double` it prints: floating point, with no
  behaviour to state.
- Console output, the usage message, and the `argc != 4` exit: I/O.
- `srand`, `rand` and `fill2DArrayWithRandomValues`: randomness. A and B are
  arbitrary integer matrices here, not matrices with entries in [0, 10).
- `allocateMemoryFor2DArray` and `freeMemoryOf2DArray`: raw memory management,
  including the outer pointer table the program leaks. The matrices are
  `array2<int>` values passed in. C's initial contents are arbitrary, which
  matches the uninitialised memory of the program.
- Arrays of row pointers: A, B and C are modelled as three distinct `array2`
  objects, as `main` allocates them.
- Arguments.GetMatrixSize: requires the parsed value to fit in a C `int`,
  because `atoi`'s result is undefined otherwise.
- Arguments.GetNumOfThreads: requires the same of the value read after `-P`,
  for the same reason.
- Arguments.GetNumOfThreads: arguments are modelled as sequences of characters,
  but the program's `std::string(arg, 2, …)` takes the substring from byte 2 of
  the UTF-8 argument. The two agree only when the first two bytes of the
  argument are ASCII characters. For example, in `xé5-P` the model reads
  from `5` and gives 5, while the program reads from inside the two-byte `é`,
  parses 0 and gives 1. Comparing with `-T1`, searching for `-P` and
  `atoi` on the size argument give the same result over bytes and over
  characters.
- Decimal.Atoi: values are unbounded. The overflow behaviour of the C library
  on long digit strings is not modelled.
- Multiply.MultiplyRowsIntended: sums are unbounded integers. 32-bit overflow
  of a dot product is not modelled. With entries in [0, 10) it needs a size
  above about 26 million.
- Multiply.MultiplyTwo2DArrays: products are unbounded integers. With entries
  in [0, 10) every product fits in an `int`, so nothing is lost for the
  program's own inputs.

## Findings

| source | as written | input that shows it | evidently intended | confidence | as-written member | corrected member |
|---|---|---|---|---|---|---|
| zadanie.cpp:156-158 | the row loop runs to the exclusive bound `first + numOfElements - 1 + remainder`, so every call skips the last row of its packet, and row `size - 1` of C is never computed | size 2, one thread: the single call writes row 0 only, and row 1 of C keeps its uninitialised contents | bound `first + numOfElements + remainder`, so that the packets partition all rows | high (not executed) | Partition.LastRowNeverWritten | Partition.IntendedPacketsPartitionRows |
| zadanie.cpp:165-167 | `C[i][j] = A[i][k] * B[k][j]` assigns each term, so a cell ends up holding only the term with `k = size - 1` | A = B = all ones, size 2, one thread (`-P1`): `C[0][0]` becomes 1, and the product has 2 | `C[i][j] += …`, starting from 0, so that C is the product | high (not executed) | Matrices.LastTermIsNotTheProduct | Multiply.DispatchIntended |
